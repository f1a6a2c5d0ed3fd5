/** Replaying the archive as rounds: rounds_in_order of
    scripts/measure-policy-validity.py. */
module Rounds {
  import opened Text
  import opened Records
  import opened Sorting
  import opened ImprovementPolicy

  datatype Round = Round(round: int, key: RoundKey, findings: seq<string>, timestamp: Option<int>)

  // ---- merging entries by round identity ----

  function IndexOf(rs: seq<Round>, key: RoundKey): (r: Option<nat>)
    ensures r.Some? ==> r.value < |rs| && rs[r.value].key == key
    ensures r.None? ==> forall i | 0 <= i < |rs| :: rs[i].key != key
  {
    if rs == [] then None
    else if rs[0].key == key then Some(0)
    else match IndexOf(rs[1..], key) case Some(i) => Some(i + 1) case None => None
  }

  function Later(a: Option<int>, b: Option<int>): Option<int> {
    if b.Some? && (a.None? || b.value > a.value) then b else a
  }

  function Extended(r: Round, e: ArchiveEntry): Round {
    r.(findings := r.findings + e.findings, timestamp := Later(r.timestamp, e.occurredAt))
  }

  function AddEntry(rs: seq<Round>, e: ArchiveEntry): seq<Round> {
    match e.round
    case None => rs
    case Some(n) =>
      match IndexOf(rs, KeyOf(e))
      case Some(i) => rs[i := Extended(rs[i], e)]
      case None => rs + [Extended(Round(n, KeyOf(e), [], None), e)]
  }

  function Merged(entries: seq<ArchiveEntry>): seq<Round> {
    if entries == [] then [] else AddEntry(Merged(entries[..|entries| - 1]), entries[|entries| - 1])
  }

  // ---- what a merged record holds, entry by entry ----

  function BelongsTo(key: RoundKey): ArchiveEntry -> bool {
    (e: ArchiveEntry) => e.round.Some? && KeyOf(e) == key
  }

  /** The numbered entries of one round identity, in archive order. */
  function EntriesOf(entries: seq<ArchiveEntry>, key: RoundKey): seq<ArchiveEntry> {
    Filter(entries, BelongsTo(key))
  }

  ghost predicate IsLatestTime(t: Option<int>, es: seq<ArchiveEntry>) {
    && (t.None? <==> forall e | e in es :: e.occurredAt.None?)
    && (t.Some? ==>
          && (exists e | e in es :: e.occurredAt == t)
          && forall e | e in es && e.occurredAt.Some? :: e.occurredAt.value <= t.value)
  }

  /** r has the number of the first entry of its identity, the findings of all of
      them in order, and the latest of their times. */
  ghost predicate IsRecord(r: Round, entries: seq<ArchiveEntry>) {
    var own := EntriesOf(entries, r.key);
    own != [] && Some(r.round) == own[0].round && r.findings == EntryFindings(own) && IsLatestTime(r.timestamp, own)
  }

  lemma EntriesOfSnoc(init: seq<ArchiveEntry>, e: ArchiveEntry, key: RoundKey)
    ensures EntriesOf(init + [e], key) == EntriesOf(init, key) + (if BelongsTo(key)(e) then [e] else [])
  {
    FilterConcat(init, [e], BelongsTo(key));
    FilterCons(e, [], BelongsTo(key));
    assert [e] + [] == [e];
    EmptyConcat(if BelongsTo(key)(e) then [e] else []);
  }

  lemma LatestMore(t: Option<int>, es: seq<ArchiveEntry>, e: ArchiveEntry)
    requires IsLatestTime(t, es)
    ensures IsLatestTime(Later(t, e.occurredAt), es + [e])
  {
    assert e in es + [e];
    assert forall x | x in es :: x in es + [e];
  }

  lemma RecordMore(r: Round, init: seq<ArchiveEntry>, e: ArchiveEntry)
    requires IsRecord(r, init)
    ensures IsRecord(if e.round.Some? && KeyOf(e) == r.key then Extended(r, e) else r, init + [e])
  {
    EntriesOfSnoc(init, e, r.key);
    if BelongsTo(r.key)(e) {
      var own := EntriesOf(init, r.key);
      EntryFindingsSnoc(own, e);
      LatestMore(r.timestamp, own, e);
    } else {
      EmptyConcat(EntriesOf(init, r.key));
    }
  }

  lemma NoEntriesYet(entries: seq<ArchiveEntry>, key: RoundKey)
    requires key !in EntryKeys(entries)
    ensures EntriesOf(entries, key) == []
  {
    FilterNone(entries, BelongsTo(key));
  }

  lemma NewRecord(init: seq<ArchiveEntry>, e: ArchiveEntry)
    requires e.round.Some? && KeyOf(e) !in EntryKeys(init)
    ensures IsRecord(Extended(Round(e.round.value, KeyOf(e), [], None), e), init + [e])
  {
    NoEntriesYet(init, KeyOf(e));
    EntriesOfSnoc(init, e, KeyOf(e));
    EntryFindingsSnoc([], e);
    LatestMore(None, [], e);
    assert [] + [e] == [e] && EntryFindings([]) == [];
  }

  lemma KeyAbsent(rs: seq<Round>, key: RoundKey)
    requires IndexOf(rs, key).None?
    ensures key !in KeysOf(rs)
  {
  }

  /** Merging puts into each record exactly what its entries say. */
  lemma {:induction false} MergedRecords(entries: seq<ArchiveEntry>)
    ensures forall i | 0 <= i < |Merged(entries)| :: IsRecord(Merged(entries)[i], entries)
  {
    if entries != [] {
      var init, e := entries[..|entries| - 1], entries[|entries| - 1];
      assert entries == init + [e];
      MergedRecords(init);
      MergedKeys(init);
      var rs := Merged(init);
      forall i | 0 <= i < |Merged(entries)| ensures IsRecord(Merged(entries)[i], entries) {
        if i < |rs| {
          RecordMore(rs[i], init, e);
        } else {
          KeyAbsent(rs, KeyOf(e));
          NewRecord(init, e);
        }
      }
    }
  }

  // ---- order ----

  /** Order of the key strings "round:<n>" and "sha:<commit>". Two legacy keys
      of one number are equal, so their mutual order is never consulted. */
  predicate KeyLe(a: RoundKey, b: RoundKey) {
    match (a, b)
    case (ByNumber(m), ByNumber(n)) => m.None? || (n.Some? && m.value <= n.value)
    case (ByNumber(_), ByCommit(_)) => true
    case (ByCommit(_), ByNumber(_)) => false
    case (ByCommit(s), ByCommit(t)) => StringLe(s, t)
  }

  predicate NumberLe(a: Round, b: Round) {
    a.round < b.round || (a.round == b.round && KeyLe(a.key, b.key))
  }

  /** An unknown time sorts as -1. */
  function TimeKey(t: Option<int>): int { match t case Some(ms) => ms case None => -1 }

  predicate TimeLe(a: Round, b: Round) {
    TimeKey(a.timestamp) < TimeKey(b.timestamp)
    || (TimeKey(a.timestamp) == TimeKey(b.timestamp) && a.round <= b.round)
  }

  const BY_NUMBER: (Round, Round) -> bool := (a: Round, b: Round) => NumberLe(a, b)
  const BY_TIME: (Round, Round) -> bool := (a: Round, b: Round) => TimeLe(a, b)

  lemma OrdersAreTotal()
    ensures TotalPreorder(BY_NUMBER) && TotalPreorder(BY_TIME)
  {
    forall a, b ensures BY_NUMBER(a, b) || BY_NUMBER(b, a) {
      if a.key.ByCommit? && b.key.ByCommit? { LexTotal(Codes(a.key.sha), Codes(b.key.sha)); }
    }
    forall a, b, c | BY_NUMBER(a, b) && BY_NUMBER(b, c) ensures BY_NUMBER(a, c) {
      if a.key.ByCommit? && b.key.ByCommit? && c.key.ByCommit? && a.round == b.round == c.round {
        LexTransitive(Codes(a.key.sha), Codes(b.key.sha), Codes(c.key.sha));
      }
    }
  }

  /** A round without a time takes the latest earlier one, in number order. */
  function CarryForward(rs: seq<Round>, last: Option<int>): (r: seq<Round>)
    ensures |r| == |rs|
    ensures forall i | 0 <= i < |rs| ::
              r[i].round == rs[i].round && r[i].key == rs[i].key && r[i].findings == rs[i].findings
  {
    if rs == [] then []
    else
      var t := if rs[0].timestamp.None? then last else rs[0].timestamp;
      [rs[0].(timestamp := t)] + CarryForward(rs[1..], t)
  }

  /** The time of round i, or of the nearest dated round numbered before it. */
  function LastKnown(rs: seq<Round>, i: nat): Option<int>
    requires i < |rs|
  {
    if rs[i].timestamp.Some? then rs[i].timestamp else if i == 0 then None else LastKnown(rs, i - 1)
  }

  lemma {:induction false} CarriedTime(rs: seq<Round>, last: Option<int>, i: nat)
    requires i < |rs|
    ensures CarryForward(rs, last)[i].timestamp == (if LastKnown(rs, i).Some? then LastKnown(rs, i) else last)
  {
    if i > 0 {
      CarriedTime(rs[1..], if rs[0].timestamp.None? then last else rs[0].timestamp, i - 1);
      LastKnownTail(rs, i);
    }
  }

  lemma {:induction false} LastKnownTail(rs: seq<Round>, i: nat)
    requires 0 < i < |rs|
    ensures LastKnown(rs, i) == (if LastKnown(rs[1..], i - 1).Some? then LastKnown(rs[1..], i - 1) else rs[0].timestamp)
  {
    if i > 1 { LastKnownTail(rs, i - 1); }
  }

  function Numbered(entries: seq<ArchiveEntry>): seq<Round> {
    CarryForward(SortBy(Merged(entries), BY_NUMBER), None)
  }

  function RoundsOf(entries: seq<ArchiveEntry>): seq<Round> {
    SortBy(Numbered(entries), BY_TIME)
  }

  lemma MergedSnoc(entries: seq<ArchiveEntry>, n: nat)
    requires n < |entries|
    ensures Merged(entries[..n + 1]) == AddEntry(Merged(entries[..n]), entries[n])
  {
    assert entries[..n + 1][..n] == entries[..n];
  }

  method MergeByRound(entries: seq<ArchiveEntry>) returns (byRound: seq<Round>)
    ensures byRound == Merged(entries) && forall i | 0 <= i < |byRound| :: IsRecord(byRound[i], entries)
  {
    byRound := [];
    for n := 0 to |entries|
      invariant byRound == Merged(entries[..n])
    {
      var entry := entries[n];
      MergedSnoc(entries, n);
      if entry.round.None? { continue; }
      ghost var before := byRound;
      var found := IndexOf(byRound, KeyOf(entry));
      var at := |byRound|;
      if found.Some? {
        at := found.value;
      } else {
        byRound := byRound + [Round(entry.round.value, KeyOf(entry), [], None)];
      }
      var merged := byRound[at];
      merged := merged.(findings := merged.findings + entry.findings);
      if entry.occurredAt.Some? && (merged.timestamp.None? || entry.occurredAt.value > merged.timestamp.value) {
        merged := merged.(timestamp := entry.occurredAt);
      }
      assert merged == Extended(byRound[at], entry);
      byRound := byRound[at := merged];
      assert found.None? ==> byRound == before + [merged];
    }
    assert entries[..|entries|] == entries;
    MergedRecords(entries);
  }

  lemma CarryStep(done: seq<Round>, rs: seq<Round>, i: nat, last: Option<int>, rnd: Round)
    requires i < |rs| && rnd == rs[i].(timestamp := if rs[i].timestamp.None? then last else rs[i].timestamp)
    ensures done + CarryForward(rs[i..], last) == (done + [rnd]) + CarryForward(rs[i + 1..], rnd.timestamp)
  {
    var tail := rs[i..];
    assert tail[0] == rs[i] && tail[1..] == rs[i + 1..];
    var rest := CarryForward(rs[i + 1..], rnd.timestamp);
    assert CarryForward(tail, last) == [rnd] + rest;
    assert done + ([rnd] + rest) == (done + [rnd]) + rest;
  }

  method CarryTimes(rs: seq<Round>) returns (ordered: seq<Round>)
    ensures ordered == CarryForward(rs, None)
    ensures forall i | 0 <= i < |rs| :: ordered[i] == rs[i].(timestamp := LastKnown(rs, i))
  {
    ordered := [];
    var last: Option<int> := None;
    for i := 0 to |rs|
      invariant CarryForward(rs, None) == ordered + CarryForward(rs[i..], last)
    {
      var rnd := rs[i];
      ghost var before := last;
      if rnd.timestamp.None? { rnd := rnd.(timestamp := last); }
      last := rnd.timestamp;
      CarryStep(ordered, rs, i, before, rnd);
      ordered := ordered + [rnd];
    }
    forall i | 0 <= i < |rs| ensures ordered[i] == rs[i].(timestamp := LastKnown(rs, i)) { CarriedTime(rs, None, i); }
  }

  method RoundsInOrder(entries: seq<ArchiveEntry>) returns (rounds: seq<Round>)
    ensures rounds == RoundsOf(entries)
  {
    var byRound := MergeByRound(entries);
    var ordered := CarryTimes(SortBy(byRound, BY_NUMBER));
    rounds := SortBy(ordered, BY_TIME);
  }

  // ---- one record per round identity ----

  predicate DistinctKeys(rs: seq<Round>) {
    forall i, j | 0 <= i < j < |rs| :: rs[i].key != rs[j].key
  }

  function KeysOf(rs: seq<Round>): set<RoundKey> { set r | r in rs :: r.key }

  /** Identities of the entries that carry a round number. */
  function EntryKeys(entries: seq<ArchiveEntry>): set<RoundKey> {
    set e | e in entries && e.round.Some? :: KeyOf(e)
  }

  lemma {:induction false} MergedKeys(entries: seq<ArchiveEntry>)
    ensures DistinctKeys(Merged(entries)) && KeysOf(Merged(entries)) == EntryKeys(entries)
  {
    if entries != [] {
      var init, e := entries[..|entries| - 1], entries[|entries| - 1];
      assert entries == init + [e];
      MergedKeys(init);
      AddEntryKeys(Merged(init), e);
      assert EntryKeys(entries) == EntryKeys(init) + (if e.round.Some? then {KeyOf(e)} else {});
    }
  }

  lemma AddEntryKeys(rs: seq<Round>, e: ArchiveEntry)
    requires DistinctKeys(rs)
    ensures DistinctKeys(AddEntry(rs, e))
    ensures KeysOf(AddEntry(rs, e)) == KeysOf(rs) + (if e.round.Some? then {KeyOf(e)} else {})
  {
    if e.round.Some? {
      match IndexOf(rs, KeyOf(e)) {
        case Some(i) => KeysAfterUpdate(rs, i, Extended(rs[i], e));
        case None =>
      }
    }
  }

  lemma KeysAfterUpdate(rs: seq<Round>, i: nat, r: Round)
    requires i < |rs| && r.key == rs[i].key
    ensures KeysOf(rs[i := r]) == KeysOf(rs)
  {
    var rs' := rs[i := r];
    forall k | k in KeysOf(rs) ensures k in KeysOf(rs') {
      var j :| 0 <= j < |rs| && rs[j].key == k;
      assert rs'[j] in rs' && rs'[j].key == k;
    }
    forall k | k in KeysOf(rs') ensures k in KeysOf(rs) {
      var j :| 0 <= j < |rs'| && rs'[j].key == k;
      assert rs[j] in rs && rs[j].key == k;
    }
  }

  function KeyList(rs: seq<Round>): (ks: seq<RoundKey>)
    ensures |ks| == |rs|
  {
    seq(|rs|, i requires 0 <= i < |rs| => rs[i].key)
  }

  lemma {:induction false} KeyListPermutes(a: seq<Round>, b: seq<Round>)
    requires multiset(a) == multiset(b)
    ensures multiset(KeyList(a)) == multiset(KeyList(b))
  {
    if a == [] {
      assert |multiset(b)| == 0;
    } else {
      var k := DropFirst(a, b);
      KeyListPermutes(a[1..], b[..k] + b[k + 1..]);
      assert KeyList(a) == [a[0].key] + KeyList(a[1..]);
      assert KeyList(b) == KeyList(b[..k]) + [a[0].key] + KeyList(b[k + 1..]);
      assert KeyList(b[..k] + b[k + 1..]) == KeyList(b[..k]) + KeyList(b[k + 1..]);
    }
  }

  lemma {:induction false} DistinctMultiplicity(ks: seq<RoundKey>)
    ensures (forall i, j | 0 <= i < j < |ks| :: ks[i] != ks[j]) <==> (forall k | k in ks :: multiset(ks)[k] == 1)
  {
    if ks != [] {
      var h, t := ks[0], ks[1..];
      assert ks == [h] + t;
      DistinctMultiplicity(t);
      if forall i, j | 0 <= i < j < |ks| :: ks[i] != ks[j] {
        assert h !in t;
        forall i, j | 0 <= i < j < |t| ensures t[i] != t[j] { assert ks[i + 1] != ks[j + 1]; }
      }
      if forall k | k in ks :: multiset(ks)[k] == 1 {
        assert multiset(ks)[h] == 1 + multiset(t)[h];
        assert h !in t;
        forall k | k in t ensures multiset(t)[k] == 1 { assert k in ks && multiset(ks)[k] == 1; }
        forall i, j | 0 <= i < j < |ks| ensures ks[i] != ks[j] {
          if i > 0 { assert t[i - 1] != t[j - 1]; } else { assert ks[j] == t[j - 1]; }
        }
      }
    }
  }

  lemma DistinctKeysPermute(a: seq<Round>, b: seq<Round>)
    requires multiset(a) == multiset(b) && DistinctKeys(a)
    ensures DistinctKeys(b) && KeysOf(b) == KeysOf(a)
  {
    var ka, kb := KeyList(a), KeyList(b);
    KeyListPermutes(a, b);
    DistinctMultiplicity(ka); DistinctMultiplicity(kb);
    assert forall i, j | 0 <= i < j < |ka| :: ka[i] != ka[j];
    forall k | k in kb ensures multiset(kb)[k] == 1 { assert k in multiset(ka); assert k in ka; }
    forall i, j | 0 <= i < j < |b| ensures b[i].key != b[j].key { assert kb[i] != kb[j]; }
    assert forall r :: r in a <==> r in multiset(a);
    assert forall r :: r in b <==> r in multiset(b);
  }

  lemma SameKeysCarried(rs: seq<Round>, last: Option<int>)
    ensures KeysOf(CarryForward(rs, last)) == KeysOf(rs)
    ensures DistinctKeys(rs) ==> DistinctKeys(CarryForward(rs, last))
  {
    var c := CarryForward(rs, last);
    forall k | k in KeysOf(rs) ensures k in KeysOf(c) {
      var j :| 0 <= j < |rs| && rs[j].key == k;
      assert c[j] in c && c[j].key == k;
    }
    forall k | k in KeysOf(c) ensures k in KeysOf(rs) {
      var j :| 0 <= j < |c| && c[j].key == k;
      assert rs[j] in rs && rs[j].key == k;
    }
  }

  /** One record per round identity, in time order. */
  lemma OneRoundPerKey(entries: seq<ArchiveEntry>)
    ensures DistinctKeys(RoundsOf(entries)) && KeysOf(RoundsOf(entries)) == EntryKeys(entries)
    ensures Sorted(RoundsOf(entries), BY_TIME)
  {
    OrdersAreTotal();
    MergedKeys(entries);
    SortIsPermutation(Merged(entries), BY_NUMBER);
    DistinctKeysPermute(Merged(entries), SortBy(Merged(entries), BY_NUMBER));
    SameKeysCarried(SortBy(Merged(entries), BY_NUMBER), None);
    SortIsPermutation(Numbered(entries), BY_TIME);
    DistinctKeysPermute(Numbered(entries), RoundsOf(entries));
    SortSorts(Numbered(entries), BY_TIME);
  }

  /** The replayed round of an identity has the number and findings of its entries,
      and the latest of their times when one is dated. */
  lemma ReplayedRecord(entries: seq<ArchiveEntry>, r: Round)
    requires r in RoundsOf(entries)
    ensures var own := EntriesOf(entries, r.key);
            && own != [] && own[0].round == Some(r.round) && r.findings == EntryFindings(own)
            && ((exists e | e in own :: e.occurredAt.Some?) ==> IsLatestTime(r.timestamp, own))
  {
    var sorted := SortBy(Merged(entries), BY_NUMBER);
    MergedRecords(entries);
    SortIsPermutation(Numbered(entries), BY_TIME);
    SortIsPermutation(Merged(entries), BY_NUMBER);
    var i :| 0 <= i < |Numbered(entries)| && Numbered(entries)[i] == r;
    CarriedTime(sorted, None, i);
    assert sorted[i] in Merged(entries);
    assert IsRecord(sorted[i], entries);
  }

  lemma {:induction false} EntryFindingsMember(es: seq<ArchiveEntry>, f: string)
    ensures f in EntryFindings(es) <==> exists e | e in es :: e.round.Some? && f in e.findings
  {
    if es != [] {
      EntryFindingsMember(es[1..], f);
      assert es == [es[0]] + es[1..];
    }
  }

  /** A finding stands in the replayed round of an identity exactly when one of the
      numbered entries of that identity has it. */
  lemma FindingOfRound(entries: seq<ArchiveEntry>, r: Round, f: string)
    requires r in RoundsOf(entries)
    ensures f in r.findings <==> exists e | e in entries :: BelongsTo(r.key)(e) && f in e.findings
  {
    ReplayedRecord(entries, r);
    EntryFindingsMember(EntriesOf(entries, r.key), f);
    forall e ensures e in EntriesOf(entries, r.key) <==> e in entries && BelongsTo(r.key)(e) {
      FilterMember(entries, BelongsTo(r.key), e);
    }
  }

  // ---- no finding is lost or invented ----

  function Flatten(rs: seq<Round>): seq<string> {
    if rs == [] then [] else rs[0].findings + Flatten(rs[1..])
  }

  /** Findings of the entries that carry a round number, in archive order. */
  function EntryFindings(entries: seq<ArchiveEntry>): seq<string> {
    if entries == [] then []
    else (if entries[0].round.Some? then entries[0].findings else []) + EntryFindings(entries[1..])
  }

  lemma {:induction false} FlattenConcat(a: seq<Round>, b: seq<Round>)
    ensures Flatten(a + b) == Flatten(a) + Flatten(b)
  {
    if a == [] {
      EmptyConcat(b);
    } else {
      ConcatHead(a, b);
      FlattenConcat(a[1..], b);
      Assoc(a[0].findings, Flatten(a[1..]), Flatten(b));
    }
  }

  lemma {:induction false} EntryFindingsConcat(a: seq<ArchiveEntry>, b: seq<ArchiveEntry>)
    ensures EntryFindings(a + b) == EntryFindings(a) + EntryFindings(b)
  {
    if a == [] {
      EmptyConcat(b);
    } else {
      var head := if a[0].round.Some? then a[0].findings else [];
      ConcatHead(a, b);
      EntryFindingsConcat(a[1..], b);
      Assoc(head, EntryFindings(a[1..]), EntryFindings(b));
    }
  }

  lemma {:induction false} FlattenPermutes(a: seq<Round>, b: seq<Round>)
    requires multiset(a) == multiset(b)
    ensures multiset(Flatten(a)) == multiset(Flatten(b))
  {
    if a == [] {
      assert |multiset(b)| == 0;
    } else {
      var k := DropFirst(a, b);
      FlattenPermutes(a[1..], b[..k] + b[k + 1..]);
      FlattenConcat(b[..k], [b[k]] + b[k + 1..]);
      FlattenConcat([b[k]], b[k + 1..]);
      FlattenConcat(b[..k], b[k + 1..]);
      assert Flatten([b[k]]) == b[k].findings + Flatten([]);
    }
  }

  lemma {:induction false} FlattenCarried(rs: seq<Round>, last: Option<int>)
    ensures Flatten(CarryForward(rs, last)) == Flatten(rs)
  {
    if rs != [] {
      FlattenCarried(rs[1..], if rs[0].timestamp.None? then last else rs[0].timestamp);
    }
  }

  lemma FlattenAdd(rs: seq<Round>, e: ArchiveEntry)
    requires e.round.Some?
    ensures multiset(Flatten(AddEntry(rs, e))) == multiset(Flatten(rs)) + multiset(e.findings)
  {
    match IndexOf(rs, KeyOf(e)) {
      case Some(i) =>
        var r := Extended(rs[i], e);
        assert rs == rs[..i] + ([rs[i]] + rs[i + 1..]);
        assert rs[i := r] == rs[..i] + ([r] + rs[i + 1..]);
        FlattenConcat(rs[..i], [rs[i]] + rs[i + 1..]); FlattenConcat([rs[i]], rs[i + 1..]);
        FlattenConcat(rs[..i], [r] + rs[i + 1..]); FlattenConcat([r], rs[i + 1..]);
        assert Flatten([r]) == r.findings + Flatten([]) && Flatten([rs[i]]) == rs[i].findings + Flatten([]);
      case None =>
        var r := Extended(Round(e.round.value, KeyOf(e), [], None), e);
        FlattenConcat(rs, [r]);
        assert Flatten([r]) == r.findings + Flatten([]);
    }
  }

  lemma {:induction false} MergedFindings(entries: seq<ArchiveEntry>)
    ensures multiset(Flatten(Merged(entries))) == multiset(EntryFindings(entries))
  {
    if entries != [] {
      var init, e := entries[..|entries| - 1], entries[|entries| - 1];
      MergedFindings(init);
      EntryFindingsSnoc(init, e);
      assert entries == init + [e];
      if e.round.Some? { FlattenAdd(Merged(init), e); }
    }
  }

  lemma EntryFindingsSnoc(init: seq<ArchiveEntry>, e: ArchiveEntry)
    ensures EntryFindings(init + [e]) == EntryFindings(init) + (if e.round.Some? then e.findings else [])
  {
    EntryFindingsConcat(init, [e]);
    assert EntryFindings([e]) == (if e.round.Some? then e.findings else []) + EntryFindings([]);
  }

  /** Replay conserves the multiset of findings. */
  lemma FindingsConserved(entries: seq<ArchiveEntry>)
    ensures multiset(Flatten(RoundsOf(entries))) == multiset(EntryFindings(entries))
  {
    MergedFindings(entries);
    SortIsPermutation(Merged(entries), BY_NUMBER);
    FlattenPermutes(Merged(entries), SortBy(Merged(entries), BY_NUMBER));
    FlattenCarried(SortBy(Merged(entries), BY_NUMBER), None);
    SortIsPermutation(Numbered(entries), BY_TIME);
    FlattenPermutes(Numbered(entries), RoundsOf(entries));
  }

  // ---- archiving a new review ----

  /** A review nobody archived, numbered above every archived round. */
  ghost predicate FreshEntry(entries: seq<ArchiveEntry>, e: ArchiveEntry) {
    && e.round.Some? && e.occurredAt.Some?
    && KeyOf(e) !in EntryKeys(entries)
    && forall x | x in entries && x.round.Some? :: x.round.value < e.round.value
  }

  function NewRound(e: ArchiveEntry): Round
    requires e.round.Some?
  {
    Round(e.round.value, KeyOf(e), e.findings, e.occurredAt)
  }

  /** No archived round is timed after t. */
  ghost predicate NoneLaterThan(rs: seq<Round>, t: int) {
    forall i | 0 <= i < |rs| :: TimeKey(rs[i].timestamp) <= t
  }

  lemma {:induction false} MergedRoundNumbers(entries: seq<ArchiveEntry>, bound: int)
    requires forall x | x in entries && x.round.Some? :: x.round.value < bound
    ensures forall i | 0 <= i < |Merged(entries)| :: Merged(entries)[i].round < bound
  {
    if entries != [] {
      assert entries[|entries| - 1] in entries;
      MergedRoundNumbers(entries[..|entries| - 1], bound);
    }
  }

  lemma MergedFresh(entries: seq<ArchiveEntry>, e: ArchiveEntry)
    requires FreshEntry(entries, e)
    ensures Merged(entries + [e]) == Merged(entries) + [NewRound(e)]
  {
    assert (entries + [e])[..|entries|] == entries;
    MergedKeys(entries);
    var found := IndexOf(Merged(entries), KeyOf(e));
    if found.Some? { KeyPresent(Merged(entries), found.value); }
    assert found.None?;
    assert [] + e.findings == e.findings;
  }

  lemma KeyPresent(rs: seq<Round>, i: nat)
    requires i < |rs|
    ensures rs[i].key in KeysOf(rs)
  {
    assert rs[i] in rs;
  }

  lemma {:induction false} CarrySnoc(rs: seq<Round>, r: Round, last: Option<int>)
    requires r.timestamp.Some?
    ensures CarryForward(rs + [r], last) == CarryForward(rs, last) + [r]
  {
    if rs == [] {
      assert rs + [r] == [r];
      assert CarryForward([r], last) == [r] + CarryForward([], r.timestamp);
    } else {
      var t := if rs[0].timestamp.None? then last else rs[0].timestamp;
      assert (rs + [r])[0] == rs[0] && (rs + [r])[1..] == rs[1..] + [r];
      CarrySnoc(rs[1..], r, t);
      var h := [rs[0].(timestamp := t)];
      Assoc(h, CarryForward(rs[1..], t), [r]);
    }
  }

  lemma NumberedFresh(entries: seq<ArchiveEntry>, e: ArchiveEntry)
    requires FreshEntry(entries, e)
    ensures Numbered(entries + [e]) == Numbered(entries) + [NewRound(e)]
    ensures forall i | 0 <= i < |Numbered(entries)| :: Numbered(entries)[i].round < e.round.value
  {
    var r := NewRound(e);
    MergedFresh(entries, e);
    MergedRoundNumbers(entries, e.round.value);
    SortSnoc(Merged(entries), r, BY_NUMBER);
    CarrySnoc(SortBy(Merged(entries), BY_NUMBER), r, None);
    SortIsPermutation(Merged(entries), BY_NUMBER);
    var s := SortBy(Merged(entries), BY_NUMBER);
    forall i | 0 <= i < |s| ensures s[i].round < e.round.value { assert s[i] in Merged(entries); }
  }

  lemma FreshInTime(entries: seq<ArchiveEntry>, e: ArchiveEntry)
    requires FreshEntry(entries, e) && NoneLaterThan(RoundsOf(entries), e.occurredAt.value)
    ensures RoundsOf(entries + [e]) == RoundsOf(entries) + [NewRound(e)]
  {
    NumberedFresh(entries, e);
    SortIsPermutation(Numbered(entries), BY_TIME);
    forall y | y in Numbered(entries) ensures BY_TIME(y, NewRound(e)) {
      assert y in RoundsOf(entries);
    }
    SortSnoc(Numbered(entries), NewRound(e), BY_TIME);
  }

  lemma PrefixPlusOne(before: seq<Round>, after: seq<Round>, r: Round)
    requires before <= after && multiset(after) == multiset(before) + multiset{r}
    ensures after == before + [r]
  {
    assert |after| == |multiset(after)| == |before| + 1;
    var z := after[|before|];
    assert after == before + [z];
    assert multiset(after) - multiset(before) == multiset{z};
    assert r in multiset{z};
  }

  lemma FreshButEarlier(entries: seq<ArchiveEntry>, e: ArchiveEntry)
    requires FreshEntry(entries, e) && !NoneLaterThan(RoundsOf(entries), e.occurredAt.value)
    ensures !(RoundsOf(entries) <= RoundsOf(entries + [e]))
  {
    var before, after, r := RoundsOf(entries), RoundsOf(entries + [e]), NewRound(e);
    NumberedFresh(entries, e);
    SortIsPermutation(Numbered(entries), BY_TIME);
    SortIsPermutation(Numbered(entries + [e]), BY_TIME);
    OneRoundPerKey(entries + [e]);
    if before <= after {
      PrefixPlusOne(before, after, r);
      var i :| 0 <= i < |before| && TimeKey(before[i].timestamp) > e.occurredAt.value;
      LaterComesLater(before, r, i);
    }
  }

  /** A review with an older clock: archived second, replayed first. */
  lemma OlderClockInserts()
    ensures var one := ArchiveEntry(Some(1), ["a"], Some("c1"), Some(200), None, None);
            var two := ArchiveEntry(Some(2), ["b"], Some("c2"), Some(100), None, None);
            FreshEntry([one], two) && !(RoundsOf([one]) <= RoundsOf([one, two]))
  {
    var one := ArchiveEntry(Some(1), ["a"], Some("c1"), Some(200), None, None);
    var two := ArchiveEntry(Some(2), ["b"], Some("c2"), Some(100), None, None);
    FreshInTime([], one);
    assert [] + [one] == [one] && [one] + [two] == [one, two] && RoundsOf([]) == [];
    assert RoundsOf([one])[0] == NewRound(one);
    assert KeyOf(one) == ByCommit("c1") && KeyOf(two) == ByCommit("c2") && "c1"[1] != "c2"[1];
    FreshButEarlier([one], two);
  }

  lemma LaterComesLater(before: seq<Round>, r: Round, i: nat)
    requires i < |before| && TimeKey(before[i].timestamp) > TimeKey(r.timestamp)
    ensures !Sorted(before + [r], BY_TIME)
  {
    assert (before + [r])[i] == before[i] && (before + [r])[|before|] == r;
    assert !BY_TIME(before[i], r);
  }

  /** Replay is causal exactly in time order: archiving a fresh review leaves the
      replayed rounds as they were, and adds one, if and only if no archived
      round is timed after it. */
  lemma ReplayIsCausal(entries: seq<ArchiveEntry>, e: ArchiveEntry)
    requires FreshEntry(entries, e)
    ensures RoundsOf(entries) <= RoundsOf(entries + [e]) <==> NoneLaterThan(RoundsOf(entries), e.occurredAt.value)
    ensures NoneLaterThan(RoundsOf(entries), e.occurredAt.value) ==>
              RoundsOf(entries + [e]) == RoundsOf(entries) + [NewRound(e)]
    ensures |RoundsOf(entries + [e])| == |RoundsOf(entries)| + 1
  {
    NumberedFresh(entries, e);
    SortIsPermutation(Numbered(entries), BY_TIME);
    SortIsPermutation(Numbered(entries + [e]), BY_TIME);
    if NoneLaterThan(RoundsOf(entries), e.occurredAt.value) {
      FreshInTime(entries, e);
    } else {
      FreshButEarlier(entries, e);
    }
  }
}
