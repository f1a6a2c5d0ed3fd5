/** scripts/mine-trace-failures.py: the field evidence built from failed tool
    calls, and the held-out part of it (scripts/replay-policy-history.py). */
module TraceEvidence {
  import opened Text
  import opened Records
  import opened Sorting
  import opened ImprovementPolicy
  import opened Measuring
  import opened Definitions

  /** One sighting of a failure. The text is cut at a length cap; truncated says
      that something was cut off. */
  datatype Occurrence = Occurrence(timestamp: Option<int>, text: string, truncated: bool)

  /** A failure with every sighting kept while mining; a record read back from
      disk has kept none. */
  datatype Failure = Failure(
    traceId: string, timestamp: Option<int>, command: string, excerpt: string, kept: seq<Occurrence>)

  function StoredText(f: Failure): string { f.command + " " + f.excerpt }

  function Occurrences(f: Failure): seq<Occurrence> {
    if f.kept != [] then f.kept else [Occurrence(f.timestamp, Lower(StoredText(f)), false)]
  }

  /** The occurrences as match_timestamps reads them: lower-cased once more. */
  function LoweredOccurrences(f: Failure): seq<Occurrence> {
    if f.kept != [] then Lowered(f.kept) else [Occurrence(f.timestamp, Lower(StoredText(f)), false)]
  }

  function Lowered(os: seq<Occurrence>): seq<Occurrence> {
    seq(|os|, i requires 0 <= i < |os| => os[i].(text := Lower(os[i].text)))
  }

  /** Mining keeps lower-cased text only. */
  predicate Mined(f: Failure) {
    forall o | o in f.kept :: Lower(o.text) == o.text
  }

  predicate Shows(text: string, words: seq<string>) {
    exists i | 0 <= i < |words| :: Contains(text, Lower(words[i]))
  }

  // ---- when one failure showed a topic ----

  /** Times of the matching occurrences. */
  function Matched(os: seq<Occurrence>, words: seq<string>): seq<Option<int>> {
    if os == [] then []
    else (if Shows(os[0].text, words) then [os[0].timestamp] else []) + Matched(os[1..], words)
  }

  /** Times of the cut-off occurrences without a visible match. */
  function Blind(os: seq<Occurrence>, words: seq<string>): seq<Option<int>> {
    if os == [] then []
    else (if !Shows(os[0].text, words) && os[0].truncated then [os[0].timestamp] else []) + Blind(os[1..], words)
  }

  predicate AllDated(ts: seq<Option<int>>) { forall i | 0 <= i < |ts| :: ts[i].Some? }

  function Dates(ts: seq<Option<int>>): (r: seq<int>)
    requires AllDated(ts)
    ensures |r| == |ts| && forall i | 0 <= i < |r| :: ts[i] == Some(r[i])
  {
    seq(|ts|, i requires 0 <= i < |ts| => ts[i].value)
  }

  function Minimum(s: seq<int>): (m: int)
    requires s != []
    ensures m in s && forall x | x in s :: m <= x
  {
    assert s == [s[0]] + s[1..];
    if |s| == 1 then s[0] else var m := Minimum(s[1..]); if s[0] <= m then s[0] else m
  }

  predicate IntLe(a: int, b: int) { a <= b }

  /** The earliest match, unless an undated match, or a cut-off occurrence that
      may be earlier, hides it. */
  function FirstOf(matched: seq<Option<int>>, blind: seq<Option<int>>): Option<int> {
    if matched == [] || !AllDated(matched) then None
    else
      var first := Minimum(Dates(matched));
      if exists i | 0 <= i < |blind| :: blind[i].None? || blind[i].value < first then None else Some(first)
  }

  /** Every match in time order, unless some match may be hidden. */
  function EveryOf(matched: seq<Option<int>>, blind: seq<Option<int>>): Option<seq<int>> {
    if matched == [] || !AllDated(matched) || blind != [] then None
    else Some(SortBy(Dates(matched), IntLe))
  }

  function FirstMatchTime(f: Failure, words: seq<string>): Option<int> {
    FirstOf(Matched(Occurrences(f), words), Blind(Occurrences(f), words))
  }

  function EveryMatchTime(f: Failure, words: seq<string>): Option<seq<int>> {
    EveryOf(Matched(LoweredOccurrences(f), words), Blind(LoweredOccurrences(f), words))
  }

  method ScanOccurrences(os: seq<Occurrence>, words: seq<string>)
    returns (matched: seq<Option<int>>, blind: seq<Option<int>>)
    ensures matched == Matched(os, words) && blind == Blind(os, words)
  {
    matched, blind := [], [];
    EmptyConcat(Matched(os, words));
    EmptyConcat(Blind(os, words));
    for i := 0 to |os|
      invariant matched + Matched(os[i..], words) == Matched(os, words)
      invariant blind + Blind(os[i..], words) == Blind(os, words)
    {
      assert os[i..][0] == os[i] && os[i..][1..] == os[i + 1..];
      var shows := Shows(os[i].text, words);
      ghost var m := if shows then [os[i].timestamp] else [];
      ghost var b := if !shows && os[i].truncated then [os[i].timestamp] else [];
      Assoc(matched, m, Matched(os[i + 1..], words));
      Assoc(blind, b, Blind(os[i + 1..], words));
      EmptyConcat(matched);
      EmptyConcat(blind);
      if shows {
        matched := matched + [os[i].timestamp];
      } else if os[i].truncated {
        blind := blind + [os[i].timestamp];
      }
    }
    EmptyConcat(matched);
    EmptyConcat(blind);
    assert os[|os|..] == [];
  }

  lemma LoweredIsKept(f: Failure)
    requires Mined(f)
    ensures LoweredOccurrences(f) == Occurrences(f)
  {
    if f.kept != [] {
      forall i | 0 <= i < |f.kept| ensures Lowered(f.kept)[i] == f.kept[i] {
        assert f.kept[i] in f.kept;
      }
    }
  }

  lemma EveryStartsWithFirst(matched: seq<Option<int>>, blind: seq<Option<int>>)
    requires EveryOf(matched, blind).Some?
    ensures EveryOf(matched, blind).value != []
    ensures FirstOf(matched, blind) == Some(Minimum(EveryOf(matched, blind).value))
  {
    var dates := Dates(matched);
    SortIsPermutation(dates, IntLe);
    SameMinimum(dates, SortBy(dates, IntLe));
  }

  lemma SameMinimum(a: seq<int>, b: seq<int>)
    requires a != [] && b != [] && forall x :: x in a <==> x in b
    ensures Minimum(a) == Minimum(b)
  {
    assert Minimum(a) in b && Minimum(b) in a;
  }

  /** Of one failure, a known list of matches has the stored first match as its
      minimum. */
  lemma FirstOfEvery(f: Failure, words: seq<string>)
    requires Mined(f) && EveryMatchTime(f, words).Some?
    ensures EveryMatchTime(f, words).value != []
    ensures FirstMatchTime(f, words) == Some(Minimum(EveryMatchTime(f, words).value))
  {
    LoweredIsKept(f);
    EveryStartsWithFirst(Matched(Occurrences(f), words), Blind(Occurrences(f), words));
  }

  // What the two functions mean, occurrence by occurrence.

  predicate MayShow(o: Occurrence, words: seq<string>) { Shows(o.text, words) || o.truncated }

  /** t is the first match exactly when a matching occurrence has that time and
      every occurrence that matches, or may have matched, is dated no earlier. */
  lemma FirstMatchMeans(f: Failure, words: seq<string>, t: int)
    ensures FirstMatchTime(f, words) == Some(t) <==>
              && (exists o | o in Occurrences(f) :: Shows(o.text, words) && o.timestamp == Some(t))
              && forall o | o in Occurrences(f) && MayShow(o, words) :: o.timestamp.Some? && t <= o.timestamp.value
  {
    var os := Occurrences(f);
    var matched, blind := Matched(os, words), Blind(os, words);
    MatchedMember(os, words);
    BlindMember(os, words);
    FirstOfMeans(matched, blind, t);
    if NoEarlier(matched, t) && NoEarlier(blind, t) {
      forall o | o in os && MayShow(o, words) ensures o.timestamp.Some? && t <= o.timestamp.value {
        assert o.timestamp in matched || o.timestamp in blind;
      }
    }
  }

  predicate NoEarlier(ts: seq<Option<int>>, t: int) { forall m | m in ts :: m.Some? && t <= m.value }

  lemma FirstOfMeans(matched: seq<Option<int>>, blind: seq<Option<int>>, t: int)
    ensures FirstOf(matched, blind) == Some(t) <==> Some(t) in matched && NoEarlier(matched, t) && NoEarlier(blind, t)
  {
    if AllDated(matched) && matched != [] {
      var dates := Dates(matched);
      forall i | 0 <= i < |matched| ensures Some(dates[i]) in matched && dates[i] in dates {
        assert matched[i] == Some(dates[i]);
      }
      assert Some(Minimum(dates)) in matched;
      if Some(t) in matched { assert t in dates; }
    }
  }

  lemma {:induction false} MatchedMember(os: seq<Occurrence>, words: seq<string>)
    ensures forall m :: m in Matched(os, words) <==> exists o | o in os :: Shows(o.text, words) && o.timestamp == m
  {
    if os != [] {
      MatchedMember(os[1..], words);
      assert os == [os[0]] + os[1..];
    }
  }

  lemma {:induction false} BlindMember(os: seq<Occurrence>, words: seq<string>)
    ensures forall m ::
              m in Blind(os, words) <==>
              exists o | o in os :: !Shows(o.text, words) && o.truncated && o.timestamp == m
  {
    if os != [] {
      BlindMember(os[1..], words);
      assert os == [os[0]] + os[1..];
    }
  }

  /** The list of matches is known exactly when some occurrence matches, every one that
      matches is dated, and none that is cut off fails to; then it is the ascending list
      of the times at which occurrences match. */
  lemma EveryMatchMeans(f: Failure, words: seq<string>)
    requires Mined(f)
    ensures var os, every := Occurrences(f), EveryMatchTime(f, words);
            && (every.Some? <==>
                  && (exists o | o in os :: Shows(o.text, words))
                  && forall o | o in os && MayShow(o, words) :: Shows(o.text, words) && o.timestamp.Some?)
            && (every.Some? ==>
                  && (forall i, j | 0 <= i < j < |every.value| :: every.value[i] <= every.value[j])
                  && forall t ::
                       t in every.value <==> exists o | o in os :: Shows(o.text, words) && o.timestamp == Some(t))
  {
    var os := Occurrences(f);
    LoweredIsKept(f);
    MatchedMember(os, words);
    BlindMember(os, words);
    EveryOfMeans(Matched(os, words), Blind(os, words));
    KnownWhen(os, words);
  }

  lemma KnownWhen(os: seq<Occurrence>, words: seq<string>)
    ensures var matched, blind := Matched(os, words), Blind(os, words);
            matched != [] && AllDated(matched) && blind == [] <==>
              && (exists o | o in os :: Shows(o.text, words))
              && forall o | o in os && MayShow(o, words) :: Shows(o.text, words) && o.timestamp.Some?
  {
    var matched, blind := Matched(os, words), Blind(os, words);
    MatchedMember(os, words);
    BlindMember(os, words);
    if matched != [] { assert matched[0] in matched; }
    if blind != [] { assert blind[0] in blind; }
    forall o | o in os
      ensures Shows(o.text, words) ==> o.timestamp in matched
      ensures !Shows(o.text, words) && o.truncated ==> o.timestamp in blind
    {
    }
    forall i | 0 <= i < |matched| && forall o | o in os && Shows(o.text, words) :: o.timestamp.Some?
      ensures matched[i].Some?
    {
      assert matched[i] in matched;
    }
  }

  lemma EveryOfMeans(matched: seq<Option<int>>, blind: seq<Option<int>>)
    ensures EveryOf(matched, blind).Some? <==> matched != [] && AllDated(matched) && blind == []
    ensures EveryOf(matched, blind).Some? ==>
              var every := EveryOf(matched, blind).value;
              && (forall i, j | 0 <= i < j < |every| :: every[i] <= every[j])
              && forall t :: t in every <==> Some(t) in matched
  {
    if matched != [] && AllDated(matched) && blind == [] {
      var dates := Dates(matched);
      SortIsPermutation(dates, IntLe);
      SortSorts(dates, IntLe);
      forall t ensures t in dates <==> Some(t) in matched {
        if Some(t) in matched {
          var i :| 0 <= i < |matched| && matched[i] == Some(t);
          assert dates[i] == t;
        }
      }
      forall i, j | 0 <= i < j < |SortBy(dates, IntLe)| ensures SortBy(dates, IntLe)[i] <= SortBy(dates, IntLe)[j] {
        assert IntLe(SortBy(dates, IntLe)[i], SortBy(dates, IntLe)[j]);
      }
    }
  }

  // ---- one topic over many failures ----

  function Texts(os: seq<Occurrence>): (r: seq<string>)
    ensures |r| == |os|
  {
    seq(|os|, i requires 0 <= i < |os| => os[i].text)
  }

  /** What a failure is matched on: its occurrences, with spaces between. */
  function Joined(os: seq<Occurrence>): string { Join(Texts(os), ' ') }

  /** The topic's keywords appear in the failure's joined text. */
  predicate Topical(f: Failure, words: seq<string>) { Shows(Joined(Occurrences(f)), words) }

  predicate HasCutOff(f: Failure) { exists i | 0 <= i < |f.kept| :: f.kept[i].truncated }

  /** The failures of session id that show the topic. */
  ghost function Showing(fs: seq<Failure>, id: string, words: seq<string>): set<Failure> {
    set f | f in fs && f.traceId == id && Topical(f, words)
  }

  /** The first-match times of these failures. */
  ghost function Times(shown: set<Failure>, words: seq<string>): set<Option<int>> {
    set f | f in shown :: FirstMatchTime(f, words)
  }

  /** e is the least of these times, unknown as soon as one of them is. */
  ghost predicate IsLeast(e: Option<int>, times: set<Option<int>>) {
    && (e.None? <==> None in times)
    && (e.Some? ==> e in times && forall t | t in times :: t.Some? && e.value <= t.value)
  }

  ghost predicate IsEarliest(e: Option<int>, shown: set<Failure>, words: seq<string>) {
    IsLeast(e, Times(shown, words))
  }

  ghost predicate SomeMatchAt(shown: set<Failure>, words: seq<string>, at: int) {
    exists f :: f in shown && EveryMatchTime(f, words).Some? && at in EveryMatchTime(f, words).value
  }

  predicate Increasing(s: seq<int>) { forall i, j | 0 <= i < j < |s| :: s[i] < s[j] }

  /** v lists the matches of these failures in time order, once each, unknown as
      soon as one failure's are. */
  ghost predicate IsEvery(v: Option<seq<int>>, shown: set<Failure>, words: seq<string>) {
    && (v.None? <==> exists f :: f in shown && EveryMatchTime(f, words).None?)
    && (v.Some? ==> Increasing(v.value) && forall at :: at in v.value <==> SomeMatchAt(shown, words, at))
  }

  ghost predicate IsSummary(t: Trace, shown: set<Failure>, words: seq<string>) {
    shown != {} && IsEarliest(t.timestamp, shown, words) && IsEvery(t.timestamps, shown, words)
  }

  predicate DistinctIds(ts: seq<Trace>) {
    forall i, j | 0 <= i < j < |ts| :: ts[i].id != ts[j].id
  }

  /** ts has exactly one summary for each session that shows the topic. */
  ghost predicate Summarizes(ts: seq<Trace>, fs: seq<Failure>, words: seq<string>) {
    && DistinctIds(ts)
    && (forall i | 0 <= i < |ts| :: IsSummary(ts[i], Showing(fs, ts[i].id, words), words))
    && Covers(ts, fs, words)
  }

  ghost predicate Covers(ts: seq<Trace>, fs: seq<Failure>, words: seq<string>) {
    forall id :: Showing(fs, id, words) != {} ==> HasEntry(ts, id)
  }

  predicate HasEntry(ts: seq<Trace>, id: string) { exists i | 0 <= i < |ts| :: ts[i].id == id }

  // ---- adding one failure to a topic ----

  function InsertOnce(x: int, s: seq<int>): (r: seq<int>)
    requires Increasing(s)
    ensures Increasing(r) && forall y :: y in r <==> y == x || y in s
  {
    if s == [] || x < s[0] then [x] + s
    else if x == s[0] then s
    else
      var rest := InsertOnce(x, s[1..]);
      assert s == [s[0]] + s[1..];
      assert forall i | 0 <= i < |rest| :: rest[i] in rest;
      [s[0]] + rest
  }

  /** sorted(set(s)) */
  function SortedSet(s: seq<int>): (r: seq<int>)
    ensures Increasing(r) && forall y :: y in r <==> y in s
  {
    if s == [] then [] else assert s == [s[0]] + s[1..]; InsertOnce(s[0], SortedSet(s[1..]))
  }

  function Earlier(a: Option<int>, b: Option<int>): Option<int> {
    if a.Some? && (b.None? || b.value < a.value) then b else a
  }

  function Union(a: Option<seq<int>>, b: Option<seq<int>>): Option<seq<int>> {
    if a.Some? && b.Some? then Some(SortedSet(a.value + b.value)) else None
  }

  lemma ExtendEarliest(e: Option<int>, shown: set<Failure>, f: Failure, words: seq<string>)
    requires IsEarliest(e, shown, words)
    ensures IsEarliest(Earlier(e, FirstMatchTime(f, words)), shown + {f}, words)
  {
    assert Times(shown + {f}, words) == Times(shown, words) + {FirstMatchTime(f, words)};
  }

  lemma ExtendEvery(v: Option<seq<int>>, shown: set<Failure>, f: Failure, words: seq<string>)
    requires IsEvery(v, shown, words)
    ensures IsEvery(Union(v, EveryMatchTime(f, words)), shown + {f}, words)
  {
    var every := EveryMatchTime(f, words);
    assert f in shown + {f};
    forall at
      ensures SomeMatchAt(shown + {f}, words, at)
              <==> SomeMatchAt(shown, words, at) || (every.Some? && at in every.value) {
    }
  }

  lemma NewSummary(f: Failure, words: seq<string>)
    ensures var when, every := FirstMatchTime(f, words), EveryMatchTime(f, words);
            IsSummary(Trace(f.traceId, Earlier(when, when), Union(every, every)), {f}, words)
  {
    var every := EveryMatchTime(f, words);
    assert f in {f};
    assert Times({f}, words) == {FirstMatchTime(f, words)};
    forall at ensures SomeMatchAt({f}, words, at) <==> every.Some? && at in every.value {
    }
  }

  lemma ShowingMore(fs: seq<Failure>, f: Failure, id: string, words: seq<string>)
    ensures Showing(fs + [f], id, words) ==
            Showing(fs, id, words) + (if f.traceId == id && Topical(f, words) then {f} else {})
  {
  }

  /** A failure that does not show the topic changes nothing. */
  lemma SummariesStay(ts: seq<Trace>, fs: seq<Failure>, f: Failure, words: seq<string>)
    requires Summarizes(ts, fs, words) && !Topical(f, words)
    ensures Summarizes(ts, fs + [f], words)
  {
    forall id ensures Showing(fs + [f], id, words) == Showing(fs, id, words) {
      ShowingMore(fs, f, id, words);
    }
  }

  function Slot(ts: seq<Trace>, id: string): (k: nat)
    ensures k <= |ts| && (k < |ts| <==> HasEntry(ts, id))
    ensures k < |ts| ==> ts[k].id == id
    ensures forall i | 0 <= i < k :: ts[i].id != id
  {
    if ts == [] || ts[0].id == id then 0
    else
      assert HasEntry(ts, id) ==> exists i | 0 < i < |ts| :: ts[i] == ts[1..][i - 1] && ts[i].id == id;
      1 + Slot(ts[1..], id)
  }

  function Put(ts: seq<Trace>, t: Trace): (r: seq<Trace>)
    ensures |r| == (if HasEntry(ts, t.id) then |ts| else |ts| + 1)
    ensures r[Slot(ts, t.id)] == t
    ensures forall i | 0 <= i < |ts| && i != Slot(ts, t.id) :: r[i] == ts[i]
  {
    var k := Slot(ts, t.id);
    if k < |ts| then ts[k := t] else ts + [t]
  }

  /** The session's entry after one more failure that shows the topic. */
  function Combined(ts: seq<Trace>, id: string, when: Option<int>, every: Option<seq<int>>): (t: Trace)
    ensures t.id == id
  {
    var k := Slot(ts, id);
    if k < |ts| then Trace(id, Earlier(ts[k].timestamp, when), Union(ts[k].timestamps, every))
    else Trace(id, Earlier(when, when), Union(every, every))
  }

  method RecordMatch(ts: seq<Trace>, id: string, when: Option<int>, every: Option<seq<int>>) returns (r: seq<Trace>)
    ensures r == Put(ts, Combined(ts, id, when, every))
  {
    var k := Slot(ts, id);
    r := if k < |ts| then ts else ts + [Trace(id, when, every)];
    if r[k].timestamp.Some? && (when.None? || when.value < r[k].timestamp.value) {
      r := r[k := r[k].(timestamp := when)];
    }
    if r[k].timestamps.Some? {
      r := r[k := r[k].(timestamps :=
        if every.None? then None else Some(SortedSet(r[k].timestamps.value + every.value)))];
    }
  }

  lemma CombinedSummarizes(ts: seq<Trace>, fs: seq<Failure>, f: Failure, words: seq<string>)
    requires Summarizes(ts, fs, words) && Topical(f, words)
    ensures IsSummary(Combined(ts, f.traceId, FirstMatchTime(f, words), EveryMatchTime(f, words)),
                      Showing(fs + [f], f.traceId, words), words)
  {
    var k, id := Slot(ts, f.traceId), f.traceId;
    ShowingMore(fs, f, id, words);
    var shown := Showing(fs, id, words);
    if k < |ts| {
      ExtendEarliest(ts[k].timestamp, shown, f, words);
      ExtendEvery(ts[k].timestamps, shown, f, words);
    } else {
      assert shown != {} ==> HasEntry(ts, id);
      assert shown + {f} == {f};
      NewSummary(f, words);
    }
  }

  lemma PutCovers(ts: seq<Trace>, fs: seq<Failure>, f: Failure, words: seq<string>, t: Trace)
    requires Covers(ts, fs, words) && t.id == f.traceId
    ensures Covers(Put(ts, t), fs + [f], words)
  {
    var k, r := Slot(ts, t.id), Put(ts, t);
    forall id | Showing(fs + [f], id, words) != {} ensures HasEntry(r, id) {
      ShowingMore(fs, f, id, words);
      if id == t.id {
        assert r[k].id == id;
      } else {
        assert HasEntry(ts, id);
        var i :| 0 <= i < |ts| && ts[i].id == id;
        assert r[i] == ts[i];
      }
    }
  }

  lemma ShowingStays(fs: seq<Failure>, f: Failure, id: string, words: seq<string>)
    requires id != f.traceId
    ensures Showing(fs + [f], id, words) == Showing(fs, id, words)
  {
    ShowingMore(fs, f, id, words);
  }

  lemma EntryStays(t: Trace, fs: seq<Failure>, f: Failure, words: seq<string>)
    requires IsSummary(t, Showing(fs, t.id, words), words) && t.id != f.traceId
    ensures IsSummary(t, Showing(fs + [f], t.id, words), words)
  {
    ShowingStays(fs, f, t.id, words);
  }

  lemma PutSummarizes(ts: seq<Trace>, fs: seq<Failure>, f: Failure, words: seq<string>, t: Trace)
    requires Summarizes(ts, fs, words) && t.id == f.traceId
    requires IsSummary(t, Showing(fs + [f], f.traceId, words), words)
    ensures Summarizes(Put(ts, t), fs + [f], words)
  {
    var k, r := Slot(ts, t.id), Put(ts, t);
    forall i | 0 <= i < |r| ensures IsSummary(r[i], Showing(fs + [f], r[i].id, words), words) {
      if i != k { EntryStays(ts[i], fs, f, words); }
    }
    PutCovers(ts, fs, f, words, t);
  }

  /** One topic's traces after one more failure. */
  function After(ts: seq<Trace>, f: Failure, words: seq<string>): seq<Trace> {
    if Topical(f, words) then Put(ts, Combined(ts, f.traceId, FirstMatchTime(f, words), EveryMatchTime(f, words)))
      else ts
  }

  lemma AfterSummarizes(ts: seq<Trace>, fs: seq<Failure>, f: Failure, words: seq<string>)
    requires Summarizes(ts, fs, words)
    ensures Summarizes(After(ts, f, words), fs + [f], words)
  {
    if Topical(f, words) {
      CombinedSummarizes(ts, fs, f, words);
      PutSummarizes(ts, fs, f, words, Combined(ts, f.traceId, FirstMatchTime(f, words), EveryMatchTime(f, words)));
    } else {
      SummariesStay(ts, fs, f, words);
    }
  }

  // ---- the order of the published list ----

  /** key=lambda t: (t["timestamp"] or 0, t["id"]) */
  predicate TraceLe(a: Trace, b: Trace) {
    TraceTime(a) < TraceTime(b) || (TraceTime(a) == TraceTime(b) && StringLe(a.id, b.id))
  }

  function TraceTime(t: Trace): int { if t.timestamp.Some? then t.timestamp.value else 0 }

  lemma TraceLeOrders()
    ensures TotalPreorder(TraceLe)
  {
    forall a: Trace, b: Trace ensures TraceLe(a, b) || TraceLe(b, a) {
      LexTotal(Codes(a.id), Codes(b.id));
    }
    forall a: Trace, b: Trace, c: Trace | TraceLe(a, b) && TraceLe(b, c) ensures TraceLe(a, c) {
      if StringLe(a.id, b.id) && StringLe(b.id, c.id) { LexTransitive(Codes(a.id), Codes(b.id), Codes(c.id)); }
    }
  }

  lemma TraceLeTellsApart(a: Trace, b: Trace)
    requires TraceLe(a, b) && TraceLe(b, a)
    ensures a.id == b.id
  {
    StringAntisymmetric(a.id, b.id);
  }

  lemma {:induction false} DistinctOnce(ts: seq<Trace>, t: Trace)
    requires DistinctIds(ts)
    ensures multiset(ts)[t] == (if t in ts then 1 else 0)
  {
    if ts != [] {
      DistinctOnce(ts[1..], t);
      RemoveFirst(ts);
      if t in ts[1..] {
        var i :| 0 <= i < |ts[1..]| && ts[1..][i] == t;
        assert ts[i + 1] == t;
      }
    }
  }

  lemma {:induction false} OnceDistinct(ts: seq<Trace>)
    requires forall i, j | 0 <= i < |ts| && 0 <= j < |ts| && ts[i].id == ts[j].id :: ts[i] == ts[j]
    requires forall t :: multiset(ts)[t] <= 1
    ensures DistinctIds(ts)
  {
    if ts != [] {
      RemoveFirst(ts);
      OnceDistinct(ts[1..]);
      forall j | 0 < j < |ts| ensures ts[0].id != ts[j].id {
        assert ts[j] == ts[1..][j - 1];
        assert ts[j] in multiset(ts[1..]);
      }
    }
  }

  lemma SortStaysDistinct(ts: seq<Trace>)
    requires DistinctIds(ts)
    ensures DistinctIds(SortBy(ts, TraceLe))
  {
    var r := SortBy(ts, TraceLe);
    SortIsPermutation(ts, TraceLe);
    forall t ensures multiset(r)[t] <= 1 { DistinctOnce(ts, t); }
    forall i, j | 0 <= i < |r| && 0 <= j < |r| && r[i].id == r[j].id ensures r[i] == r[j] {
      assert r[i] in ts && r[j] in ts;
      SameIdSameTrace(ts, r[i], r[j]);
    }
    OnceDistinct(r);
  }

  lemma SameIdSameTrace(ts: seq<Trace>, s: Trace, t: Trace)
    requires DistinctIds(ts) && s in ts && t in ts && s.id == t.id
    ensures s == t
  {
  }

  lemma SameEntryNames(a: seq<Trace>, b: seq<Trace>, id: string)
    requires (forall t :: t in a <==> t in b) && HasEntry(a, id)
    ensures HasEntry(b, id)
  {
    var i :| 0 <= i < |a| && a[i].id == id;
    assert a[i] in b;
  }

  lemma SortKeepsSummaries(ts: seq<Trace>, fs: seq<Failure>, words: seq<string>)
    requires Summarizes(ts, fs, words)
    ensures Summarizes(SortBy(ts, TraceLe), fs, words)
  {
    var r := SortBy(ts, TraceLe);
    SortStaysDistinct(ts);
    SortIsPermutation(ts, TraceLe);
    forall i | 0 <= i < |r| ensures IsSummary(r[i], Showing(fs, r[i].id, words), words) {
      assert r[i] in ts;
    }
    forall id | Showing(fs, id, words) != {} ensures HasEntry(r, id) { SameEntryNames(ts, r, id); }
  }

  // ---- the whole snapshot ----

  function Unseen(f: Failure, defs: seq<Definition>): set<string> {
    set d | d in defs && !Topical(f, d.words) :: d.name
  }

  /** Topics that cut-off text may have shown without being seen. */
  ghost function HiddenTopics(fs: seq<Failure>, defs: seq<Definition>): set<string> {
    set f, n | f in fs && HasCutOff(f) && n in Unseen(f, defs) :: n
  }

  ghost predicate AllSummarized(topics: map<string, seq<Trace>>, fs: seq<Failure>, defs: seq<Definition>) {
    && topics.Keys == NameSet(defs)
    && forall d | d in defs :: Summarizes(topics[d.name], fs, d.words)
  }

  ghost predicate IsSnapshot(ev: Evidence, fs: seq<Failure>, defs: seq<Definition>, complete: bool,
                             scanned: set<string>) {
    && AllSummarized(ev.topics, fs, defs)
    && (forall n | n in ev.topics :: Sorted(ev.topics[n], TraceLe))
    && ev.truncated == (if complete then HiddenTopics(fs, defs) else NameSet(defs))
    && ev.sessions == scanned + (set f | f in fs :: f.traceId)
    && ev.definitions == defs && ev.failureCount == |fs|
  }

  method RecordTopic(ts: seq<Trace>, f: Failure, words: seq<string>) returns (r: seq<Trace>)
    ensures r == After(ts, f, words)
  {
    r := ts;
    if Topical(f, words) {
      var matched, blind := ScanOccurrences(Occurrences(f), words);
      var when := FirstOf(matched, blind);
      matched, blind := ScanOccurrences(LoweredOccurrences(f), words);
      r := RecordMatch(ts, f.traceId, when, EveryOf(matched, blind));
    }
  }

  function AfterFailure(perTopic: map<string, seq<Trace>>, f: Failure,
                        defs: seq<Definition>): (r: map<string, seq<Trace>>)
    ensures r.Keys == perTopic.Keys
  {
    map n | n in perTopic :: After(perTopic[n], f, WordsOf(defs, n))
  }

  lemma AfterFailureAt(perTopic: map<string, seq<Trace>>, f: Failure, defs: seq<Definition>, k: nat)
    requires DistinctKeys(defs) && perTopic.Keys == NameSet(defs) && k < |defs|
    ensures AfterFailure(perTopic, f, defs)[defs[k].name] == After(perTopic[defs[k].name], f, defs[k].words)
  {
    WordsOfKey(defs, k);
  }

  predicate UpdatedOn(r: map<string, seq<Trace>>, before: map<string, seq<Trace>>, target: map<string, seq<Trace>>,
                      done: set<string>) {
    && r.Keys == before.Keys == target.Keys
    && forall n | n in r :: r[n] == (if n in done then target[n] else before[n])
  }

  lemma NextName(defs: seq<Definition>, k: nat)
    requires DistinctKeys(defs) && k < |defs|
    ensures defs[k].name !in NameSet(defs[..k]) && defs[k].name in NameSet(defs)
    ensures NameSet(defs[..k + 1]) == NameSet(defs[..k]) + {defs[k].name}
  {
    assert defs[..k + 1] == defs[..k] + [defs[k]];
  }

  lemma UpdateOne(r: map<string, seq<Trace>>, before: map<string, seq<Trace>>, target: map<string, seq<Trace>>,
                  done: set<string>, n: string)
    requires UpdatedOn(r, before, target, done) && n in before && n !in done
    ensures r[n] == before[n] && UpdatedOn(r[n := target[n]], before, target, done + {n})
  {
  }

  method RecordFailure(perTopic: map<string, seq<Trace>>, f: Failure, defs: seq<Definition>)
    returns (r: map<string, seq<Trace>>)
    requires DistinctKeys(defs) && perTopic.Keys == NameSet(defs)
    ensures r == AfterFailure(perTopic, f, defs)
  {
    r := perTopic;
    for k := 0 to |defs|
      invariant UpdatedOn(r, perTopic, AfterFailure(perTopic, f, defs), NameSet(defs[..k]))
    {
      var name := defs[k].name;
      NextName(defs, k);
      UpdateOne(r, perTopic, AfterFailure(perTopic, f, defs), NameSet(defs[..k]), name);
      AfterFailureAt(perTopic, f, defs, k);
      var entries := RecordTopic(r[name], f, defs[k].words);
      r := r[name := entries];
    }
    assert defs[..|defs|] == defs;
  }

  lemma RecordedFailure(perTopic: map<string, seq<Trace>>, fs: seq<Failure>, f: Failure, defs: seq<Definition>)
    requires AllSummarized(perTopic, fs, defs) && DistinctKeys(defs)
    ensures AllSummarized(AfterFailure(perTopic, f, defs), fs + [f], defs)
  {
    forall d | d in defs ensures Summarizes(AfterFailure(perTopic, f, defs)[d.name], fs + [f], d.words) {
      var i :| 0 <= i < |defs| && defs[i] == d;
      WordsOfKey(defs, i);
      AfterSummarizes(perTopic[d.name], fs, f, d.words);
    }
  }

  lemma NothingSeen(topics: map<string, seq<Trace>>, defs: seq<Definition>)
    requires topics.Keys == NameSet(defs) && forall n | n in topics :: topics[n] == []
    ensures AllSummarized(topics, [], defs)
  {
    forall id: string, words: seq<string> ensures Showing([], id, words) == {} {
    }
  }

  function Published(topics: map<string, seq<Trace>>): map<string, seq<Trace>> {
    map n | n in topics :: SortBy(topics[n], TraceLe)
  }

  lemma PublishedSummarizes(topics: map<string, seq<Trace>>, fs: seq<Failure>, defs: seq<Definition>)
    requires AllSummarized(topics, fs, defs)
    ensures AllSummarized(Published(topics), fs, defs)
    ensures forall n | n in Published(topics) :: Sorted(Published(topics)[n], TraceLe)
  {
    TraceLeOrders();
    forall n | n in topics ensures Sorted(SortBy(topics[n], TraceLe), TraceLe) {
      SortSorts(topics[n], TraceLe);
    }
    forall d | d in defs ensures Summarizes(SortBy(topics[d.name], TraceLe), fs, d.words) {
      SortKeepsSummaries(topics[d.name], fs, d.words);
    }
  }

  lemma HiddenMore(fs: seq<Failure>, f: Failure, defs: seq<Definition>)
    ensures HiddenTopics(fs + [f], defs) == HiddenTopics(fs, defs) + (if HasCutOff(f) then Unseen(f, defs) else {})
  {
  }

  method BuildEvidence(fs: seq<Failure>, defs: seq<Definition>, complete: bool, scanned: set<string>, now: int)
    returns (ev: Evidence)
    requires DistinctKeys(defs)
    ensures IsSnapshot(ev, fs, defs, complete, scanned) && ev.collectedAt == Some(now)
  {
    var perTopic: map<string, seq<Trace>> := map n | n in NameSet(defs) :: [];
    var unknown: set<string> := {};
    NothingSeen(perTopic, defs);
    for i := 0 to |fs|
      invariant AllSummarized(perTopic, fs[..i], defs)
      invariant unknown == HiddenTopics(fs[..i], defs)
    {
      var f := fs[i];
      if HasCutOff(f) { unknown := unknown + Unseen(f, defs); }
      var next := RecordFailure(perTopic, f, defs);
      RecordedFailure(perTopic, fs[..i], f, defs);
      HiddenMore(fs[..i], f, defs);
      assert fs[..i + 1] == fs[..i] + [f];
      perTopic := next;
    }
    assert fs[..|fs|] == fs;
    PublishedSummarizes(perTopic, fs, defs);
    ev := Evidence(Published(perTopic), if complete then unknown else NameSet(defs),
                   defs, scanned + (set f | f in fs :: f.traceId), |fs|, Some(now));
  }

  // ---- what the snapshot does not depend on, and how its times agree ----

  lemma {:induction false} IncreasingUnique(a: seq<int>, b: seq<int>)
    requires Increasing(a) && Increasing(b) && forall x :: x in a <==> x in b
    ensures a == b
  {
    if a != [] { assert a[0] in a; }
    if b != [] { assert b[0] in b; }
    if a != [] && b != [] {
      assert a == [a[0]] + a[1..] && b == [b[0]] + b[1..];
      forall x ensures x in a[1..] <==> x in b[1..] {
        assert x in a <==> x in b;
      }
      IncreasingUnique(a[1..], b[1..]);
    }
  }

  lemma LeastUnique(a: Option<int>, b: Option<int>, times: set<Option<int>>)
    requires IsLeast(a, times) && IsLeast(b, times)
    ensures a == b
  {
  }

  lemma EveryUnique(a: Option<seq<int>>, b: Option<seq<int>>, shown: set<Failure>, words: seq<string>)
    requires IsEvery(a, shown, words) && IsEvery(b, shown, words)
    ensures a == b
  {
    if a.Some? && b.Some? { IncreasingUnique(a.value, b.value); }
  }

  lemma SummaryUnique(s: Trace, t: Trace, shown: set<Failure>, words: seq<string>)
    requires s.id == t.id && IsSummary(s, shown, words) && IsSummary(t, shown, words)
    ensures s == t
  {
    LeastUnique(s.timestamp, t.timestamp, Times(shown, words));
    EveryUnique(s.timestamps, t.timestamps, shown, words);
  }

  lemma SameEntries(a: seq<Trace>, b: seq<Trace>, fs: seq<Failure>, words: seq<string>, t: Trace)
    requires Summarizes(a, fs, words) && Summarizes(b, fs, words) && t in a
    ensures t in b
  {
    var i :| 0 <= i < |a| && a[i] == t;
    assert HasEntry(b, t.id);
    var j :| 0 <= j < |b| && b[j].id == t.id;
    SummaryUnique(t, b[j], Showing(fs, t.id, words), words);
  }

  lemma SameTraces(a: seq<Trace>, b: seq<Trace>, fs: seq<Failure>, words: seq<string>)
    requires Summarizes(a, fs, words) && Summarizes(b, fs, words)
    ensures multiset(a) == multiset(b)
  {
    forall t ensures multiset(a)[t] == multiset(b)[t] {
      DistinctOnce(a, t);
      DistinctOnce(b, t);
      if t in a { SameEntries(a, b, fs, words, t); }
      if t in b { SameEntries(b, a, fs, words, t); }
    }
  }

  lemma SortedTracesUnique(a: seq<Trace>, b: seq<Trace>)
    requires DistinctIds(a) && multiset(a) == multiset(b) && Sorted(a, TraceLe) && Sorted(b, TraceLe)
    ensures a == b
  {
    TraceLeOrders();
    forall x, y | x in a && y in a && TraceLe(x, y) && TraceLe(y, x) ensures x == y {
      TraceLeTellsApart(x, y);
      SameIdSameTrace(a, x, y);
    }
    SortedIsUnique(a, b, TraceLe);
  }

  lemma SameList(a: seq<Trace>, b: seq<Trace>, fs: seq<Failure>, words: seq<string>)
    requires Summarizes(a, fs, words) && Summarizes(b, fs, words) && Sorted(a, TraceLe) && Sorted(b, TraceLe)
    ensures a == b
  {
    SameTraces(a, b, fs, words);
    SortedTracesUnique(a, b);
  }

  lemma SameFailures(ts: seq<Trace>, fs: seq<Failure>, gs: seq<Failure>, words: seq<string>)
    requires Summarizes(ts, fs, words) && forall f :: f in fs <==> f in gs
    ensures Summarizes(ts, gs, words)
  {
    forall id ensures Showing(fs, id, words) == Showing(gs, id, words) {
    }
  }

  /** But for the number of failures, the snapshot is a function of which there are:
      neither their order nor repetitions change any session, timestamp or list. */
  lemma EvidenceIgnoresOrder(a: Evidence, b: Evidence, fs: seq<Failure>, gs: seq<Failure>,
                             defs: seq<Definition>, complete: bool, scanned: set<string>)
    requires IsSnapshot(a, fs, defs, complete, scanned) && IsSnapshot(b, gs, defs, complete, scanned)
    requires a.collectedAt == b.collectedAt
    requires forall f :: f in fs <==> f in gs
    ensures a == b.(failureCount := |fs|)
  {
    forall n | n in a.topics ensures a.topics[n] == b.topics[n] {
      var d :| d in defs && d.name == n;
      SameFailures(b.topics[n], gs, fs, d.words);
      SameList(a.topics[n], b.topics[n], fs, d.words);
    }
    assert a.topics == b.topics;
    assert HiddenTopics(fs, defs) == HiddenTopics(gs, defs);
    assert (set f | f in fs :: f.traceId) == (set f | f in gs :: f.traceId);
  }

  predicate Agrees(f: Failure, words: seq<string>) {
    var every := EveryMatchTime(f, words);
    every.Some? && every.value != [] && FirstMatchTime(f, words) == Some(Minimum(every.value))
  }

  lemma EarliestIsListed(t: Trace, shown: set<Failure>, words: seq<string>)
    requires IsSummary(t, shown, words) && t.timestamps.Some?
    requires forall f | f in shown :: Agrees(f, words)
    ensures t.timestamp.Some? && t.timestamp.value in t.timestamps.value
  {
    var e :| e in shown && FirstMatchTime(e, words) == t.timestamp;
    assert Agrees(e, words);
    assert SomeMatchAt(shown, words, t.timestamp.value);
  }

  lemma EarliestIsLeast(t: Trace, shown: set<Failure>, words: seq<string>, at: int)
    requires IsSummary(t, shown, words) && t.timestamps.Some? && t.timestamp.Some? && at in t.timestamps.value
    requires forall f | f in shown :: Agrees(f, words)
    ensures t.timestamp.value <= at
  {
    assert SomeMatchAt(shown, words, at);
    var g :| g in shown && EveryMatchTime(g, words).Some? && at in EveryMatchTime(g, words).value;
    assert Agrees(g, words) && FirstMatchTime(g, words) in Times(shown, words);
  }

  /** A session whose matches are all known: the stored timestamp is their minimum. */
  lemma SummaryTimesAgree(t: Trace, shown: set<Failure>, words: seq<string>)
    requires IsSummary(t, shown, words) && t.timestamps.Some?
    requires forall f | f in shown :: Mined(f)
    ensures t.timestamps.value != [] && t.timestamp == Some(Minimum(t.timestamps.value))
  {
    AllAgree(t, shown, words);
    EarliestIsListed(t, shown, words);
    EarliestIsLeast(t, shown, words, Minimum(t.timestamps.value));
  }

  lemma AllAgree(t: Trace, shown: set<Failure>, words: seq<string>)
    requires IsSummary(t, shown, words) && t.timestamps.Some? && forall f | f in shown :: Mined(f)
    ensures forall f | f in shown :: Agrees(f, words)
  {
    forall f | f in shown ensures Agrees(f, words) { FirstOfEvery(f, words); }
  }

  lemma TimesAgree(ev: Evidence, fs: seq<Failure>, defs: seq<Definition>, complete: bool, scanned: set<string>,
                   topic: string, i: nat)
    requires IsSnapshot(ev, fs, defs, complete, scanned) && (forall f | f in fs :: Mined(f))
    requires topic in ev.topics && i < |ev.topics[topic]| && ev.topics[topic][i].timestamps.Some?
    ensures var t := ev.topics[topic][i];
            t.timestamps.value != [] && t.timestamp == Some(Minimum(t.timestamps.value))
  {
    var d :| d in defs && d.name == topic;
    SummaryTimesAgree(ev.topics[topic][i], Showing(fs, ev.topics[topic][i].id, d.words), d.words);
  }

  /** Cut-off text hides exactly the topics that some failure with a cut-off sighting does
      not show, as far as its texts go. */
  lemma HiddenIs(fs: seq<Failure>, defs: seq<Definition>, n: string)
    ensures n in HiddenTopics(fs, defs) <==>
            exists f, d | f in fs && d in defs ::
              && d.name == n && (exists o | o in f.kept :: o.truncated)
              && forall w | w in d.words :: !Contains(Joined(Occurrences(f)), Lower(w))
  {
    HiddenWhen(fs, defs, n);
    forall f, d | f in fs && d in defs
      ensures HasCutOff(f) && !Topical(f, d.words) <==>
              (exists o | o in f.kept :: o.truncated)
              && forall w | w in d.words :: !Contains(Joined(Occurrences(f)), Lower(w))
    {
      TopicalIs(f, d.words);
    }
  }

  lemma HiddenWhen(fs: seq<Failure>, defs: seq<Definition>, n: string)
    ensures n in HiddenTopics(fs, defs) <==>
            exists f, d | f in fs && d in defs :: d.name == n && HasCutOff(f) && !Topical(f, d.words)
  {
    if n in HiddenTopics(fs, defs) {
      var f :| f in fs && HasCutOff(f) && n in Unseen(f, defs);
      var d :| d in defs && !Topical(f, d.words) && d.name == n;
    }
    if f, d :| f in fs && d in defs && d.name == n && HasCutOff(f) && !Topical(f, d.words) {
      assert n in Unseen(f, defs);
    }
  }

  lemma TopicalIs(f: Failure, words: seq<string>)
    ensures Topical(f, words) <==> exists w | w in words :: Contains(Joined(Occurrences(f)), Lower(w))
    ensures HasCutOff(f) <==> exists o | o in f.kept :: o.truncated
  {
    if HasCutOff(f) {
      var i :| 0 <= i < |f.kept| && f.kept[i].truncated;
      assert f.kept[i] in f.kept;
    }
    if Topical(f, words) {
      var i :| 0 <= i < |words| && Contains(Joined(Occurrences(f)), Lower(words[i]));
      assert words[i] in words;
    }
  }

  /** A record read back from disk is matched on its command and excerpt. */
  lemma ReadBackIs(f: Failure, words: seq<string>)
    requires f.kept == []
    ensures Topical(f, words) <==> exists w | w in words :: Contains(Lower(f.command + " " + f.excerpt), Lower(w))
    ensures FirstMatchTime(f, words) == if Topical(f, words) then f.timestamp else None
  {
    TopicalIs(f, words);
    var os := Occurrences(f);
    assert Texts(os) == [Lower(f.command + " " + f.excerpt)];
    assert os[1..] == [] && Joined(os) == os[0].text;
    assert Matched(os, words) == (if Topical(f, words) then [f.timestamp] else []) + Matched(os[1..], words);
    assert Blind(os, words) == Blind(os[1..], words) == [];
    FirstOfOne(f.timestamp);
  }

  lemma FirstOfOne(t: Option<int>)
    ensures FirstOf([t], []) == t
  {
    if t.Some? { assert Dates([t]) == [t.value]; }
  }
}
