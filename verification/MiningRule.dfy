/** Which topics mine_topics of scripts/revise-improvement-policy.py finds, told by
    counting findings. */
module MiningRule {
  import opened Text
  import opened Records
  import opened Sorting
  import opened ImprovementPolicy
  import opened Mining

  /** What mining works on: the findings left, the tokens no longer to be used, and the
      words a field failure may contribute. */
  datatype Pool = Pool(env: Env, items: seq<Item>, taken: set<string>, vocabulary: set<string>)
  {
    /** The token occurs in a finding and may be taken from it. */
    function Has(t: string): Item -> bool {
      (it: Item) => t in env.tokenize(it.finding) && t !in taken && (it.source.Field? ==> t in vocabulary)
    }

    function Count(t: string): nat { |Filter(items, Has(t))| }

    function Only(t: string): Pool { this.(items := Filter(items, Has(t))) }

    /** Without the findings these words claim, and without the words. */
    function Without(words: seq<string>): Pool {
      this.(items := Filter(items, NotClaimedBy(words)), taken := taken + WordSet(words))
    }

    function Works(): seq<Work> { WorksOf(env, items, taken, vocabulary) }
  }

  /** t is in more findings than u, or in as many and first in string order. */
  predicate Ahead(p: Pool, t: string, u: string) {
    p.Count(t) > p.Count(u) || (p.Count(t) == p.Count(u) && StringLe(t, u))
  }

  ghost predicate IsHead(p: Pool, head: string) {
    p.Count(head) >= 2 && forall t | p.Count(t) >= 2 :: Ahead(p, head, t)
  }

  /** words are, in order, the tokens most often found together with the head. */
  ghost predicate AreCompanions(p: Pool, head: string, words: seq<string>) {
    var co := p.Only(head);
    && |words| <= 4 && DistinctWords(words)
    && (forall i | 0 <= i < |words| :: words[i] != head && co.Count(words[i]) >= 2)
    && (forall i, j | 0 <= i < j < |words| :: Ahead(co, words[i], words[j]))
    && forall t | t != head && co.Count(t) >= 2 && t !in words ::
         |words| == 4 && forall i | 0 <= i < |words| :: Ahead(co, words[i], t)
  }

  /** The keywords next in line. */
  ghost predicate IsNext(p: Pool, words: seq<string>) {
    words != [] && IsHead(p, words[0]) && AreCompanions(p, words[0], words[1..])
  }

  /** The head, or head and first companion, with the first number that is free. */
  ghost predicate IsName(name: string, words: seq<string>, names: set<string>) {
    && words != [] && name !in names
    && exists j :: NumberIs(name, TopicBase(words), names, j)
  }

  ghost predicate NumberIs(name: string, base: string, names: set<string>, j: nat) {
    j >= 1 && name == Candidate(base, j) && forall i | 1 <= i < j :: Candidate(base, i) in names
  }

  function TopicBase(words: seq<string>): string
    requires words != []
  {
    if |words| == 1 then words[0] else words[0] + "-" + words[1]
  }

  /** Mining takes the keywords next in line until it has all it may have, no token
      recurs, or the next topic would cover fewer than two findings. */
  ghost predicate Greedy(p: Pool, names: set<string>, slots: nat, ms: seq<Mined>)
    decreases |ms|
  {
    if ms == [] then
      || slots == 0 || (forall t :: p.Count(t) < 2)
      || exists words :: IsNext(p, words) && |Filter(p.items, ClaimedBy(words))| < 2
    else
      && slots > 0 && IsNext(p, ms[0].keywords) && |Filter(p.items, ClaimedBy(ms[0].keywords))| >= 2
      && IsName(ms[0].name, ms[0].keywords, names)
      && Greedy(p.Without(ms[0].keywords), names + {ms[0].name}, slots - 1, ms[1..])
  }

  // ---- counts are document frequencies ----

  lemma {:induction false} DfIsCount(p: Pool, t: string)
    ensures Df(p.Works(), t) == p.Count(t)
    decreases |p.items|
  {
    if p.items != [] {
      var q := p.(items := p.items[1..]);
      DfIsCount(q, t);
      assert p.Works()[0] == Work(p.items[0], Allowed(p.env, p.items[0], p.taken, p.vocabulary));
      assert p.Works()[1..] == q.Works();
    }
  }

  lemma {:induction false} UniverseByDf(ws: seq<Work>, t: string)
    ensures t in Universe(ws) <==> Df(ws, t) > 0
  {
    if ws != [] { UniverseByDf(ws[1..], t); }
  }

  lemma RecurringIs(p: Pool, t: string)
    ensures t in Recurring(p.Works()) <==> p.Count(t) >= 2
  {
    UniverseByDf(p.Works(), t);
    DfIsCount(p, t);
  }

  lemma BeatsIs(p: Pool, t: string, u: string)
    ensures Mining.Beats(p.Works(), t, u) <==> Ahead(p, t, u)
  {
    DfIsCount(p, t);
    DfIsCount(p, u);
  }

  lemma WorksCons(p: Pool, it: Item, items: seq<Item>)
    requires p.items == [it] + items
    ensures p.Works() == [Work(it, Allowed(p.env, it, p.taken, p.vocabulary))] + p.(items := items).Works()
  {
  }

  lemma {:induction false} WithTokenIs(p: Pool, head: string)
    ensures WithToken(p.Works(), head) == p.Only(head).Works()
    decreases |p.items|
  {
    if p.items != [] {
      var q := p.(items := p.items[1..]);
      var has := (w: Work) => head in w.tokens;
      var w := Work(p.items[0], Allowed(p.env, p.items[0], p.taken, p.vocabulary));
      WithTokenIs(q, head);
      assert p.items == [p.items[0]] + q.items;
      WorksCons(p, p.items[0], q.items);
      FilterCons(w, q.Works(), has);
      EmptyConcat(WithToken(q.Works(), head));
      EmptyConcat(q.Only(head).items);
      if p.Has(head)(p.items[0]) { WorksCons(p.Only(head), p.items[0], q.Only(head).items); }
    }
  }

  lemma RestCons(w: Work, ws: seq<Work>, words: seq<string>)
    ensures Rest([w] + ws, words) ==
            (if Claims(words, w.item) then [] else [Work(w.item, w.tokens - WordSet(words))]) + Rest(ws, words)
  {
    assert ([w] + ws)[1..] == ws;
  }

  lemma AllowedWithout(p: Pool, it: Item, words: seq<string>)
    ensures Allowed(p.env, it, p.taken, p.vocabulary) - WordSet(words)
            == Allowed(p.env, it, p.taken + WordSet(words), p.vocabulary)
  {
  }

  lemma {:induction false} RestIs(p: Pool, words: seq<string>)
    ensures Rest(p.Works(), words) == p.Without(words).Works()
    decreases |p.items|
  {
    if p.items != [] {
      var q, it := p.(items := p.items[1..]), p.items[0];
      RestIs(q, words);
      assert p.items == [it] + q.items;
      WorksCons(p, it, q.items);
      RestCons(Work(it, Allowed(p.env, it, p.taken, p.vocabulary)), q.Works(), words);
      AllowedWithout(p, it, words);
      EmptyConcat(Rest(q.Works(), words));
      EmptyConcat(q.Without(words).items);
      if !Claims(words, it) { WorksCons(p.Without(words), it, q.Without(words).items); }
    }
  }

  // ---- the greedy choice ----

  /** r is, in order, the first tokens of s, at most k. */
  ghost predicate Leads(ws: seq<Work>, s: set<string>, k: nat, r: seq<string>) {
    && |r| <= k && DistinctWords(r) && (forall i | 0 <= i < |r| :: r[i] in s)
    && (forall i, j | 0 <= i < j < |r| :: Mining.Beats(ws, r[i], r[j]))
    && forall u | u in s && u !in r :: |r| == k && forall i | 0 <= i < |r| :: Mining.Beats(ws, r[i], u)
  }

  lemma LeadsCons(ws: seq<Work>, s: set<string>, k: nat, t: string, rest: seq<string>)
    requires k > 0 && t in s && (forall u | u in s :: Mining.Beats(ws, t, u)) && Leads(ws, s - {t}, k - 1, rest)
    ensures Leads(ws, s, k, [t] + rest)
  {
    var r := [t] + rest;
    assert forall u | u in rest :: u in r;
    forall i, j | 0 <= i < j < |r| ensures r[i] != r[j] && Mining.Beats(ws, r[i], r[j]) {
      assert r[j] == rest[j - 1];
      if i > 0 { assert r[i] == rest[i - 1]; }
    }
    forall u | u in s && u !in r ensures |r| == k && forall i | 0 <= i < |r| :: Mining.Beats(ws, r[i], u) {
      assert r[0] == t && u in s - {t} && u !in rest;
      forall i | 0 <= i < |r| ensures Mining.Beats(ws, r[i], u) { if i > 0 { assert r[i] == rest[i - 1]; } }
    }
  }

  lemma {:induction false} TopKLeads(ws: seq<Work>, s: set<string>, k: nat)
    ensures Leads(ws, s, k, TopK(ws, s, k))
    decreases k
  {
    if k > 0 && s != {} {
      var t := Top(ws, s);
      forall u | u in s ensures Mining.Beats(ws, t, u) { TopBeats(ws, s, u); }
      TopKLeads(ws, s - {t}, k - 1);
      LeadsCons(ws, s, k, t, TopK(ws, s - {t}, k - 1));
    }
  }

  lemma HeadIs(p: Pool, head: string)
    requires Recurring(p.Works()) != {} && head == Top(p.Works(), Recurring(p.Works()))
    ensures IsHead(p, head)
  {
    RecurringIs(p, head);
    forall t | p.Count(t) >= 2 ensures Ahead(p, head, t) {
      RecurringIs(p, t);
      TopBeats(p.Works(), Recurring(p.Works()), t);
      BeatsIs(p, head, t);
    }
  }

  lemma CompanionsAre(p: Pool, head: string)
    ensures AreCompanions(p, head, Companions(p.Works(), head))
  {
    var co, words := p.Only(head), Companions(p.Works(), head);
    var s := Recurring(co.Works()) - {head};
    WithTokenIs(p, head);
    TopKLeads(co.Works(), s, 4);
    assert words == TopK(co.Works(), s, 4);
    LeadsByCount(co, head, words);
  }

  lemma LeadsByCount(co: Pool, head: string, words: seq<string>)
    requires Leads(co.Works(), Recurring(co.Works()) - {head}, 4, words)
    ensures |words| <= 4 && DistinctWords(words)
    ensures forall i | 0 <= i < |words| :: words[i] != head && co.Count(words[i]) >= 2
    ensures forall i, j | 0 <= i < j < |words| :: Ahead(co, words[i], words[j])
    ensures forall t | t != head && co.Count(t) >= 2 && t !in words ::
              |words| == 4 && forall i | 0 <= i < |words| :: Ahead(co, words[i], t)
  {
    forall i | 0 <= i < |words| ensures words[i] != head && co.Count(words[i]) >= 2 { RecurringIs(co, words[i]); }
    forall i, j | 0 <= i < j < |words| ensures Ahead(co, words[i], words[j]) { BeatsIs(co, words[i], words[j]); }
    forall t | t != head && co.Count(t) >= 2 && t !in words
      ensures |words| == 4 && forall i | 0 <= i < |words| :: Ahead(co, words[i], t)
    {
      RecurringIs(co, t);
      forall i | 0 <= i < |words| ensures Ahead(co, words[i], t) { BeatsIs(co, words[i], t); }
    }
  }

  lemma CoveredIs(p: Pool, words: seq<string>)
    ensures |Covering(p.Works(), words)| == |Filter(p.items, ClaimedBy(words))|
  {
    CoveringItems(p.Works(), words);
    assert ItemsIn(p.Works()) == p.items;
  }

  lemma NextIs(p: Pool)
    ensures match NextTopic(p.Works())
            case Some(words) => IsNext(p, words) && |Filter(p.items, ClaimedBy(words))| >= 2
            case None =>
              || (forall t :: p.Count(t) < 2)
              || exists words :: IsNext(p, words) && |Filter(p.items, ClaimedBy(words))| < 2
  {
    var ws := p.Works();
    if ws == [] || Recurring(ws) == {} {
      forall t ensures p.Count(t) < 2 { RecurringIs(p, t); }
    } else {
      var head := Top(ws, Recurring(ws));
      var words := [head] + Companions(ws, head);
      HeadIs(p, head);
      CompanionsAre(p, head);
      assert words[1..] == Companions(ws, head);
      CoveredIs(p, words);
      assert IsNext(p, words);
    }
  }

  lemma {:induction false} FirstFree(base: string, taken: set<string>, k: nat) returns (j: nat)
    requires k >= 1
    ensures j >= k && FreshFrom(base, taken, k) == Candidate(base, j)
    ensures forall i | k <= i < j :: Candidate(base, i) in taken
    decreases |taken - Tried(base, k)|
  {
    j := k;
    if Candidate(base, k) in taken {
      TriedGrows(base, taken, k);
      j := FirstFree(base, taken, k + 1);
    }
  }

  lemma NameIs(words: seq<string>, names: set<string>)
    requires words != []
    ensures IsName(FreshFrom(BaseOf(words), names, 1), words, names)
  {
    var base := TopicBase(words);
    assert base == BaseOf(words);
    var j := FirstFree(base, names, 1);
    assert NumberIs(FreshFrom(base, names, 1), base, names, j);
  }

  lemma {:induction false} MinedGreedily(p: Pool, names: set<string>, slots: nat)
    ensures Greedy(p, names, slots, MineFrom(p.env, p.Works(), names, slots))
    decreases slots
  {
    if slots > 0 {
      NextIs(p);
      var next := NextTopic(p.Works());
      if next.Some? {
        var name := FreshFrom(BaseOf(next.value), names, 1);
        NameIs(next.value, names);
        RestIs(p, next.value);
        MinedGreedily(p.Without(next.value), names + {name}, slots - 1);
        MineOne(p.env, p.Works(), names, slots, next.value);
        GreedyCons(p, names, slots, next.value, name);
      }
    }
  }

  lemma GreedyCons(p: Pool, names: set<string>, slots: nat, words: seq<string>, name: string)
    requires slots > 0 && IsNext(p, words) && |Filter(p.items, ClaimedBy(words))| >= 2 && IsName(name, words, names)
    requires name == FreshFrom(BaseOf(words), names, 1)
    requires var rest := MineFrom(p.env, p.Without(words).Works(), names + {name}, slots - 1);
             && Greedy(p.Without(words), names + {name}, slots - 1, rest)
             && Rest(p.Works(), words) == p.Without(words).Works()
             && MineFrom(p.env, p.Works(), names, slots)
                == [Mined(name, words, Supports(p.env, words, ItemsIn(Covering(p.Works(), words))))] + rest
    ensures Greedy(p, names, slots, MineFrom(p.env, p.Works(), names, slots))
  {
  }

  /** Mining is greedy by frequency: each topic's head is in as many of the findings
      left as any token that may be used, its companions are those most often with the
      head, and mining stops short of two topics only when nothing recurs or the next
      topic would cover fewer than two findings. */
  lemma MiningIsGreedy(env: Env, items: seq<Item>, defs: seq<Definition>, vocabulary: set<string>,
                       background: set<string>)
    ensures Greedy(Pool(env, items, ExistingTokens(defs) + background, vocabulary), NameSet(defs), 2,
                   Mine(env, items, defs, vocabulary, background))
  {
    MinedGreedily(Pool(env, items, ExistingTokens(defs) + background, vocabulary), NameSet(defs), 2);
  }

  // ---- what is published of a finding ----

  /** Of an archived finding the policy quotes at most 160 characters of its scrubbed
      text; of a field failure only the keywords that occur in it, in their order. */
  lemma EvidenceQuotes(env: Env, words: seq<string>, it: Item)
    ensures var s := SupportFor(env, words, it);
            match it.source
            case Archived(n) =>
              && s.ArchiveSupport? && s.round == n && IsPrefix(s.excerpt, env.scrub(it.finding))
              && (|s.excerpt| == 160 || (|s.excerpt| < 160 && s.excerpt == env.scrub(it.finding)))
            case Field(trace) =>
              && s.FieldSupport? && s.trace == trace
              && s.matched == Filter(words, (w: string) => Contains(Lower(it.finding), w))
  {
  }

  /** The tokens mining may not use: the policy's keywords, lower-cased, and background. */
  lemma TakenIs(defs: seq<Definition>, background: set<string>, t: string)
    ensures t in ExistingTokens(defs) + background <==>
            t in background || exists d, w | d in defs && w in d.words :: Lower(w) == t
  {
    if t in ExistingTokens(defs) {
      var i, j :| 0 <= i < |defs| && 0 <= j < |defs[i].words| && Lower(defs[i].words[j]) == t;
      assert defs[i] in defs && defs[i].words[j] in defs[i].words;
    }
    if d, w :| d in defs && w in d.words && Lower(w) == t {
      var i :| 0 <= i < |defs| && defs[i] == d;
      var j :| 0 <= j < |d.words| && d.words[j] == w;
    }
  }
}
