/** Topic mining of scripts/revise-improvement-policy.py: names and keywords for
    findings the policy could not classify. */
module Mining {
  import opened Text
  import opened Records
  import opened Sorting
  import opened ImprovementPolicy

  const MAX_NEW_TOPICS := 2
  const MIN_FINDINGS_PER_TOPIC := 2
  const MAX_KEYWORDS_PER_TOPIC := 5

  /** The tokenizer and the secret scrubber, whose regular expressions are not
      modelled. */
  datatype Env = Env(tokenize: string -> set<string>, scrub: string -> string)

  predicate IsLetter(c: char) { 'a' <= c <= 'z' }

  /** Shape of every token: matched by [a-z][a-z_-]{2,}, then stripped of - and _. */
  predicate TokenShape(t: string) {
    && t != "" && IsLetter(t[0]) && IsLetter(t[|t| - 1])
    && forall i | 0 <= i < |t| :: IsLetter(t[i]) || t[i] == '-' || t[i] == '_'
  }

  ghost predicate WellFormed(env: Env) {
    forall s, t {:trigger t in env.tokenize(s)} :: t in env.tokenize(s) ==> TokenShape(t)
  }

  datatype Mined = Mined(name: string, keywords: seq<string>, evidence: seq<Support>)

  /** A finding still looking for a topic, with the tokens it may contribute. */
  datatype Work = Work(item: Item, tokens: set<string>)

  function Allowed(env: Env, it: Item, taken: set<string>, vocabulary: set<string>): set<string> {
    var toks := env.tokenize(it.finding) - taken;
    if it.source.Field? then toks * vocabulary else toks
  }

  function WorksOf(env: Env, items: seq<Item>, taken: set<string>, vocabulary: set<string>): (ws: seq<Work>)
    ensures |ws| == |items|
  {
    seq(|items|, i requires 0 <= i < |items| => Work(items[i], Allowed(env, items[i], taken, vocabulary)))
  }

  // ---- document frequency ----

  function Df(ws: seq<Work>, t: string): nat {
    if ws == [] then 0 else (if t in ws[0].tokens then 1 else 0) + Df(ws[1..], t)
  }

  function Universe(ws: seq<Work>): set<string> {
    if ws == [] then {} else ws[0].tokens + Universe(ws[1..])
  }

  /** Sorted by (-df, token), a comes no later than b. */
  predicate Beats(ws: seq<Work>, a: string, b: string) {
    Df(ws, a) > Df(ws, b) || (Df(ws, a) == Df(ws, b) && StringLe(a, b))
  }

  lemma BeatsTotal(ws: seq<Work>, a: string, b: string)
    ensures Beats(ws, a, b) || Beats(ws, b, a)
  {
    LexTotal(Codes(a), Codes(b));
  }

  lemma BeatsTransitive(ws: seq<Work>, a: string, b: string, c: string)
    requires Beats(ws, a, b) && Beats(ws, b, c)
    ensures Beats(ws, a, c)
  {
    if StringLe(a, b) && StringLe(b, c) { LexTransitive(Codes(a), Codes(b), Codes(c)); }
  }

  lemma {:induction false} TopExists(ws: seq<Work>, s: set<string>) returns (t: string)
    requires s != {}
    ensures t in s && forall u | u in s :: Beats(ws, t, u)
  {
    var x :| x in s;
    LexTotal(Codes(x), Codes(x));
    t := x;
    if s - {x} == {} {
      assert s == {x};
    } else {
      var y := TopExists(ws, s - {x});
      BeatsTotal(ws, x, y);
      if Beats(ws, y, x) {
        t := y;
      } else {
        forall u | u in s ensures Beats(ws, x, u) { if u != x { BeatsTransitive(ws, x, y, u); } }
      }
    }
  }

  lemma TopUnique(ws: seq<Work>, s: set<string>)
    ensures forall a, b | a in s && b in s && Beats(ws, a, b) && Beats(ws, b, a) :: a == b
  {
    forall a, b | a in s && b in s && Beats(ws, a, b) && Beats(ws, b, a) ensures a == b {
      StringAntisymmetric(a, b);
    }
  }

  lemma TopIsSome(ws: seq<Work>, s: set<string>)
    requires s != {}
    ensures exists t | t in s :: forall u | u in s :: Beats(ws, t, u)
  {
    var t := TopExists(ws, s);
  }

  /** The most frequent token of s, the first in string order among equals. */
  function Top(ws: seq<Work>, s: set<string>): (t: string)
    requires s != {}
    ensures t in s
  {
    TopIsSome(ws, s);
    TopUnique(ws, s);
    var t :| t in s && forall u | u in s :: Beats(ws, t, u);
    t
  }

  lemma TopBeats(ws: seq<Work>, s: set<string>, u: string)
    requires u in s
    ensures Beats(ws, Top(ws, s), u)
  {
  }

  /** The k most frequent tokens of s, in order. */
  function TopK(ws: seq<Work>, s: set<string>, k: nat): (r: seq<string>)
    ensures |r| <= k
    ensures forall i | 0 <= i < |r| :: r[i] in s
    ensures forall i, j | 0 <= i < j < |r| :: r[i] != r[j]
    decreases k
  {
    if k == 0 || s == {} then [] else
      var t := Top(ws, s);
      [t] + TopK(ws, s - {t}, k - 1)
  }

  // ---- one topic ----

  function Recurring(ws: seq<Work>): set<string> {
    set t | t in Universe(ws) && Df(ws, t) >= MIN_FINDINGS_PER_TOPIC
  }

  function WithToken(ws: seq<Work>, t: string): seq<Work> {
    Filter(ws, (w: Work) => t in w.tokens)
  }

  function Companions(ws: seq<Work>, head: string): (r: seq<string>)
    ensures |r| <= MAX_KEYWORDS_PER_TOPIC - 1
  {
    var co := WithToken(ws, head);
    TopK(co, Recurring(co) - {head}, MAX_KEYWORDS_PER_TOPIC - 1)
  }

  predicate Claims(words: seq<string>, it: Item) { MentionsAny(Lower(it.finding), words) }

  function Covering(ws: seq<Work>, words: seq<string>): seq<Work> {
    if ws == [] then [] else (if Claims(words, ws[0].item) then [ws[0]] else []) + Covering(ws[1..], words)
  }

  function WordSet(words: seq<string>): set<string> { set w | w in words }

  /** The findings a new topic leaves, minus its keywords. */
  function Rest(ws: seq<Work>, words: seq<string>): seq<Work> {
    if ws == [] then []
    else
      (if Claims(words, ws[0].item) then [] else [Work(ws[0].item, ws[0].tokens - WordSet(words))])
      + Rest(ws[1..], words)
  }

  /** Head and companions of the next topic, or None when mining stops. */
  function NextTopic(ws: seq<Work>): Option<seq<string>> {
    if ws == [] || Recurring(ws) == {} then None
    else
      var head := Top(ws, Recurring(ws));
      var words := [head] + Companions(ws, head);
      if |Covering(ws, words)| < MIN_FINDINGS_PER_TOPIC then None else Some(words)
  }

  function SupportFor(env: Env, words: seq<string>, it: Item): Support {
    match it.source
    case Field(trace) => FieldSupport(trace, Filter(words, (w: string) => Contains(Lower(it.finding), w)))
    case Archived(n) =>
      var text := env.scrub(it.finding);
      ArchiveSupport(n, if |text| <= 160 then text else text[..160])
  }

  function Supports(env: Env, words: seq<string>, items: seq<Item>): (r: seq<Support>)
    ensures |r| == |items|
  {
    seq(|items|, i requires 0 <= i < |items| => SupportFor(env, words, items[i]))
  }

  function ItemsIn(ws: seq<Work>): (r: seq<Item>)
    ensures |r| == |ws|
  {
    seq(|ws|, i requires 0 <= i < |ws| => ws[i].item)
  }

  // ---- fresh names ----

  /** base, base-2, base-3, ... */
  function Candidate(base: string, k: nat): string {
    if k <= 1 then base else base + "-" + Decimal(k)
  }

  function Tried(base: string, k: nat): set<string> {
    set j | 1 <= j < k :: Candidate(base, j)
  }

  lemma CandidatesDiffer(base: string, j: nat, k: nat)
    requires 1 <= j < k
    ensures Candidate(base, j) != Candidate(base, k)
  {
    var b := Candidate(base, k);
    assert b[..|base|] == base && b[|base| + 1..] == Decimal(k);
    if j > 1 {
      var a := Candidate(base, j);
      assert a[|base| + 1..] == Decimal(j);
      NumeralOfDecimal(j); NumeralOfDecimal(k);
    }
  }

  lemma TriedGrows(base: string, taken: set<string>, k: nat)
    requires k >= 1 && Candidate(base, k) in taken
    ensures |taken - Tried(base, k + 1)| < |taken - Tried(base, k)|
  {
    forall j | 1 <= j < k { CandidatesDiffer(base, j, k); }
    assert Candidate(base, k) in taken - Tried(base, k);
    assert Candidate(base, k) in Tried(base, k + 1);
    assert taken - Tried(base, k + 1) < taken - Tried(base, k);
    SmallerSet(taken - Tried(base, k + 1), taken - Tried(base, k));
  }

  lemma SmallerSet(a: set<string>, b: set<string>)
    requires a < b
    ensures |a| < |b|
  {
    var x :| x in b && x !in a;
    var rest := b - {x} - a;
    assert b == a + rest + {x};
  }

  function FreshFrom(base: string, taken: set<string>, k: nat): (name: string)
    requires k >= 1
    ensures name !in taken
    decreases |taken - Tried(base, k)|
  {
    if Candidate(base, k) !in taken then Candidate(base, k)
    else
      TriedGrows(base, taken, k);
      FreshFrom(base, taken, k + 1)
  }

  lemma {:induction false} FreshIsCandidate(base: string, taken: set<string>, k: nat) returns (j: nat)
    requires k >= 1
    ensures j >= k && FreshFrom(base, taken, k) == Candidate(base, j)
    decreases |taken - Tried(base, k)|
  {
    j := k;
    if Candidate(base, k) in taken {
      TriedGrows(base, taken, k);
      j := FreshIsCandidate(base, taken, k + 1);
    }
  }

  function BaseOf(words: seq<string>): string
    requires words != []
  {
    if |words| > 1 then words[0] + "-" + words[1] else words[0]
  }

  // ---- mining ----

  function MineFrom(env: Env, ws: seq<Work>, names: set<string>, slots: nat): (ms: seq<Mined>)
    ensures |ms| <= slots
    decreases slots
  {
    if slots == 0 then [] else
      match NextTopic(ws)
      case None => []
      case Some(words) =>
        var name := FreshFrom(BaseOf(words), names, 1);
        [Mined(name, words, Supports(env, words, ItemsIn(Covering(ws, words))))]
          + MineFrom(env, Rest(ws, words), names + {name}, slots - 1)
  }

  function ExistingTokens(defs: seq<Definition>): set<string> {
    set i, j | 0 <= i < |defs| && 0 <= j < |defs[i].words| :: Lower(defs[i].words[j])
  }

  function Mine(env: Env, items: seq<Item>, defs: seq<Definition>, vocabulary: set<string>,
                background: set<string>): (ms: seq<Mined>)
    ensures |ms| <= MAX_NEW_TOPICS
  {
    MineFrom(env, WorksOf(env, items, ExistingTokens(defs) + background, vocabulary), NameSet(defs), MAX_NEW_TOPICS)
  }

  /** Never reuse a name: number the base until it is free. */
  method UnusedName(base: string, taken: set<string>) returns (name: string)
    ensures name == FreshFrom(base, taken, 1)
  {
    var suffix := 1;
    name := base;
    while name in taken
      invariant suffix >= 1 && name == Candidate(base, suffix)
      invariant FreshFrom(base, taken, suffix) == FreshFrom(base, taken, 1)
      decreases |taken - Tried(base, suffix)|
    {
      TriedGrows(base, taken, suffix);
      suffix := suffix + 1;
      name := base + "-" + Decimal(suffix);
    }
  }

  lemma MineStep(env: Env, ws: seq<Work>, names: set<string>, done: seq<Mined>, words: seq<string>, m: Mined)
    requires |done| < MAX_NEW_TOPICS && NextTopic(ws) == Some(words)
    requires m == Mined(FreshFrom(BaseOf(words), names, 1), words, Supports(env, words, ItemsIn(Covering(ws, words))))
    ensures done + MineFrom(env, ws, names, MAX_NEW_TOPICS - |done|) ==
            (done + [m]) + MineFrom(env, Rest(ws, words), names + {m.name}, MAX_NEW_TOPICS - |done| - 1)
  {
    Assoc(done, [m], MineFrom(env, Rest(ws, words), names + {m.name}, MAX_NEW_TOPICS - |done| - 1));
  }

  method MineTopics(env: Env, unclassified: seq<Item>, defs: seq<Definition>, vocabulary: set<string>,
                    background: set<string>)
    returns (mined: seq<Mined>)
    ensures mined == Mine(env, unclassified, defs, vocabulary, background)
  {
    var taken := ExistingTokens(defs) + background;
    var remaining := WorksOf(env, unclassified, taken, vocabulary);
    var takenNames := NameSet(defs);
    mined := [];
    while |mined| < MAX_NEW_TOPICS && remaining != []
      invariant |mined| <= MAX_NEW_TOPICS
      invariant mined + MineFrom(env, remaining, takenNames, MAX_NEW_TOPICS - |mined|) ==
                Mine(env, unclassified, defs, vocabulary, background)
      decreases MAX_NEW_TOPICS - |mined|
    {
      var candidates := Recurring(remaining);
      if candidates == {} { break; }
      var head := Top(remaining, candidates);
      var words := [head] + Companions(remaining, head);
      var covering := Covering(remaining, words);
      if |covering| < MIN_FINDINGS_PER_TOPIC { break; }
      var name := UnusedName(BaseOf(words), takenNames);
      var topic := Mined(name, words, Supports(env, words, ItemsIn(covering)));
      MineStep(env, remaining, takenNames, mined, words, topic);
      mined := mined + [topic];
      takenNames := takenNames + {name};
      remaining := Rest(remaining, words);
    }
    assert MineFrom(env, remaining, takenNames, MAX_NEW_TOPICS - |mined|) == [];
  }

  /** What each round of mining establishes: a new name for the next topic, its
      keywords among the tokens left, the findings it covers, and then the same
      again over what it leaves. */
  ghost predicate Chain(env: Env, ws: seq<Work>, names: set<string>, ms: seq<Mined>)
    decreases |ms|
  {
    ms == [] ||
    (&& Next(env, ws, names, ms[0])
     && Chain(env, Rest(ws, ms[0].keywords), names + {ms[0].name}, ms[1..]))
  }

  ghost predicate Next(env: Env, ws: seq<Work>, names: set<string>, m: Mined) {
    && TopicWords(m.keywords, Universe(ws))
    && m.name !in names && (exists j | j >= 1 :: m.name == Candidate(BaseOf(m.keywords), j))
    && m.evidence == Supports(env, m.keywords, ItemsIn(Covering(ws, m.keywords)))
    && |m.evidence| >= MIN_FINDINGS_PER_TOPIC
  }

  ghost predicate TopicWords(words: seq<string>, pool: set<string>) {
    1 <= |words| <= MAX_KEYWORDS_PER_TOPIC && DistinctWords(words) && WordSet(words) <= pool
  }

  predicate DistinctWords(words: seq<string>) {
    forall i, j | 0 <= i < j < |words| :: words[i] != words[j]
  }

  lemma NextTopicWords(ws: seq<Work>, words: seq<string>)
    requires NextTopic(ws) == Some(words)
    ensures TopicWords(words, Universe(ws)) && |Covering(ws, words)| >= MIN_FINDINGS_PER_TOPIC
  {
    UniverseOfFiltered(ws, Top(ws, Recurring(ws)));
  }

  lemma MinedNext(env: Env, ws: seq<Work>, names: set<string>, words: seq<string>, name: string)
    requires NextTopic(ws) == Some(words)
    requires words != [] && name == FreshFrom(BaseOf(words), names, 1)
    ensures Next(env, ws, names, Mined(name, words, Supports(env, words, ItemsIn(Covering(ws, words)))))
  {
    NextTopicWords(ws, words);
    var j := FreshIsCandidate(BaseOf(words), names, 1);
  }

  lemma ChainCons(env: Env, ws: seq<Work>, names: set<string>, m: Mined, rest: seq<Mined>)
    requires Next(env, ws, names, m) && Chain(env, Rest(ws, m.keywords), names + {m.name}, rest)
    ensures Chain(env, ws, names, [m] + rest)
  {
    assert ([m] + rest)[0] == m && ([m] + rest)[1..] == rest;
  }

  lemma MineOne(env: Env, ws: seq<Work>, names: set<string>, slots: nat, words: seq<string>)
    requires slots > 0 && NextTopic(ws) == Some(words)
    ensures MineFrom(env, ws, names, slots) ==
            var name := FreshFrom(BaseOf(words), names, 1);
            [Mined(name, words, Supports(env, words, ItemsIn(Covering(ws, words))))] +
              MineFrom(env, Rest(ws, words), names + {name}, slots - 1)
  {
  }

  lemma ChainOne(env: Env, ws: seq<Work>, names: set<string>, slots: nat, words: seq<string>, name: string)
    requires slots > 0 && NextTopic(ws) == Some(words) && words != [] && name == FreshFrom(BaseOf(words), names, 1)
    requires Chain(env, Rest(ws, words), names + {name}, MineFrom(env, Rest(ws, words), names + {name}, slots - 1))
    ensures Chain(env, ws, names, MineFrom(env, ws, names, slots))
  {
    var m := Mined(name, words, Supports(env, words, ItemsIn(Covering(ws, words))));
    MinedNext(env, ws, names, words, name);
    ChainCons(env, ws, names, m, MineFrom(env, Rest(ws, words), names + {name}, slots - 1));
    MineOne(env, ws, names, slots, words);
  }

  lemma {:induction false} MinedChain(env: Env, ws: seq<Work>, names: set<string>, slots: nat)
    ensures Chain(env, ws, names, MineFrom(env, ws, names, slots))
    decreases slots
  {
    if slots > 0 {
      var next := NextTopic(ws);
      if next.Some? {
        NextTopicWords(ws, next.value);
        var name := FreshFrom(BaseOf(next.value), names, 1);
        MinedChain(env, Rest(ws, next.value), names + {name}, slots - 1);
        ChainOne(env, ws, names, slots, next.value, name);
      }
    }
  }

  // ---- names ----

  ghost predicate NamesApart(ms: seq<Mined>, names: set<string>) {
    && (forall k | 0 <= k < |ms| :: ms[k].name !in names)
    && (forall j, k | 0 <= j < k < |ms| :: ms[j].name != ms[k].name)
  }

  lemma {:induction false} MinedNamesFresh(env: Env, ws: seq<Work>, names: set<string>, ms: seq<Mined>)
    requires Chain(env, ws, names, ms)
    ensures NamesApart(ms, names)
    decreases |ms|
  {
    if ms != [] {
      MinedNamesFresh(env, Rest(ws, ms[0].keywords), names + {ms[0].name}, ms[1..]);
      NamesApartCons(ms[0], ms[1..], names);
      assert ms == [ms[0]] + ms[1..];
    }
  }

  lemma NamesApartCons(m: Mined, rest: seq<Mined>, names: set<string>)
    requires m.name !in names && NamesApart(rest, names + {m.name})
    ensures NamesApart([m] + rest, names)
  {
  }

  // ---- keywords ----

  lemma {:induction false} UniverseOfFiltered(ws: seq<Work>, t: string)
    ensures Universe(WithToken(ws, t)) <= Universe(ws)
  {
    if ws != [] {
      UniverseOfFiltered(ws[1..], t);
      var rest := WithToken(ws[1..], t);
      if t in ws[0].tokens { UniverseCons(ws[0], rest); } else { EmptyConcat(rest); }
    }
  }

  lemma UniverseCons(w: Work, ws: seq<Work>)
    ensures Universe([w] + ws) == w.tokens + Universe(ws)
  {
    ConcatHead([w], ws);
    assert [w][1..] == []; EmptyConcat(ws);
  }

  lemma {:induction false} UniverseOfRest(ws: seq<Work>, words: seq<string>)
    ensures Universe(Rest(ws, words)) <= Universe(ws) - WordSet(words)
  {
    if ws != [] {
      UniverseOfRest(ws[1..], words);
      var rest := Rest(ws[1..], words);
      if Claims(words, ws[0].item) { EmptyConcat(rest); }
      else { UniverseCons(Work(ws[0].item, ws[0].tokens - WordSet(words)), rest); }
    }
  }

  /** Each topic's keywords come from the pool, and no keyword serves two topics. */
  ghost predicate KeywordsWithin(ms: seq<Mined>, pool: set<string>) {
    && (forall k | 0 <= k < |ms| :: TopicWords(ms[k].keywords, pool))
    && (forall j, k | 0 <= j < k < |ms| :: WordSet(ms[j].keywords) !! WordSet(ms[k].keywords))
  }

  lemma KeywordsWithinCons(m: Mined, rest: seq<Mined>, pool: set<string>, inner: set<string>)
    requires TopicWords(m.keywords, pool) && KeywordsWithin(rest, inner) && inner <= pool - WordSet(m.keywords)
    ensures KeywordsWithin([m] + rest, pool)
  {
    var ms := [m] + rest;
    forall k | 0 <= k < |ms| ensures TopicWords(ms[k].keywords, pool) {
      if k > 0 { assert TopicWords(rest[k - 1].keywords, inner); }
    }
    forall j, k | 0 <= j < k < |ms| ensures WordSet(ms[j].keywords) !! WordSet(ms[k].keywords) {
      assert TopicWords(rest[k - 1].keywords, inner);
      if j > 0 { assert WordSet(rest[j - 1].keywords) !! WordSet(rest[k - 1].keywords); }
    }
  }

  lemma {:induction false} MinedKeywords(env: Env, ws: seq<Work>, names: set<string>, ms: seq<Mined>)
    requires Chain(env, ws, names, ms)
    ensures KeywordsWithin(ms, Universe(ws))
    decreases |ms|
  {
    if ms != [] {
      var words := ms[0].keywords;
      UniverseOfRest(ws, words);
      MinedKeywords(env, Rest(ws, words), names + {ms[0].name}, ms[1..]);
      KeywordsWithinCons(ms[0], ms[1..], Universe(ws), Universe(Rest(ws, words)));
      assert ms == [ms[0]] + ms[1..];
    }
  }

  /** Where a keyword of these items may come from. */
  ghost predicate Publishable(env: Env, items: seq<Item>, vocabulary: set<string>, t: string) {
    || t in vocabulary
    || exists i | 0 <= i < |items| :: items[i].source.Archived? && t in env.tokenize(items[i].finding)
  }

  lemma {:induction false} UniverseMember(ws: seq<Work>, t: string) returns (i: nat)
    requires t in Universe(ws)
    ensures i < |ws| && t in ws[i].tokens
  {
    if t in ws[0].tokens { i := 0; } else { var j := UniverseMember(ws[1..], t); i := j + 1; }
  }

  lemma UniverseOfWorks(env: Env, items: seq<Item>, taken: set<string>, vocabulary: set<string>, t: string)
    requires t in Universe(WorksOf(env, items, taken, vocabulary))
    ensures t !in taken && Publishable(env, items, vocabulary, t)
    ensures exists i | 0 <= i < |items| :: t in env.tokenize(items[i].finding)
  {
    var i := UniverseMember(WorksOf(env, items, taken, vocabulary), t);
    assert t in Allowed(env, items[i], taken, vocabulary);
  }

  // ---- which finding supports which topic ----

  function DefsOf(ms: seq<Mined>): (r: seq<Definition>)
    ensures |r| == |ms|
  {
    seq(|ms|, k requires 0 <= k < |ms| => Definition(ms[k].name, ms[k].keywords))
  }

  function ClaimedBy(words: seq<string>): Item -> bool { (it: Item) => Claims(words, it) }
  function NotClaimedBy(words: seq<string>): Item -> bool { (it: Item) => !Claims(words, it) }
  function AssignedTo(defs: seq<Definition>, name: string): Item -> bool {
    (it: Item) => Classify(it.finding, defs) == Some(name)
  }

  lemma {:induction false} CoveringItems(ws: seq<Work>, words: seq<string>)
    ensures ItemsIn(Covering(ws, words)) == Filter(ItemsIn(ws), ClaimedBy(words))
    ensures ItemsIn(Rest(ws, words)) == Filter(ItemsIn(ws), NotClaimedBy(words))
  {
    if ws != [] {
      CoveringItems(ws[1..], words);
      assert ItemsIn(ws)[0] == ws[0].item && ItemsIn(ws)[1..] == ItemsIn(ws[1..]);
      ItemsCons(ws[0], Covering(ws[1..], words));
      ItemsCons(Work(ws[0].item, ws[0].tokens - WordSet(words)), Rest(ws[1..], words));
      EmptyConcat(Covering(ws[1..], words)); EmptyConcat(Rest(ws[1..], words));
      EmptyConcat(ItemsIn(Covering(ws[1..], words))); EmptyConcat(ItemsIn(Rest(ws[1..], words)));
    }
  }

  lemma ItemsCons(w: Work, ws: seq<Work>)
    ensures ItemsIn([w] + ws) == [w.item] + ItemsIn(ws)
  {
  }

  lemma AssignedHead(items: seq<Item>, d: Definition, ds: seq<Definition>)
    requires forall i | 0 <= i < |ds| :: ds[i].name != d.name
    ensures Filter(items, AssignedTo([d] + ds, d.name)) == Filter(items, ClaimedBy(d.words))
  {
    forall it | it in items ensures AssignedTo([d] + ds, d.name)(it) <==> ClaimedBy(d.words)(it) {
      ConcatHead([d], ds);
      assert [d][1..] == []; EmptyConcat(ds);
      if Classify(it.finding, ds).Some? { ClassifiedName(it.finding, ds); }
    }
    FilterSame(items, AssignedTo([d] + ds, d.name), ClaimedBy(d.words));
  }

  lemma AssignedTail(items: seq<Item>, d: Definition, ds: seq<Definition>, name: string)
    requires name != d.name
    ensures Filter(items, AssignedTo([d] + ds, name))
            == Filter(Filter(items, NotClaimedBy(d.words)), AssignedTo(ds, name))
  {
    forall it | it in items
      ensures AssignedTo([d] + ds, name)(it) <==> NotClaimedBy(d.words)(it) && AssignedTo(ds, name)(it)
    {
      ConcatHead([d], ds);
      assert [d][1..] == []; EmptyConcat(ds);
    }
    FilterTwice(items, AssignedTo([d] + ds, name), NotClaimedBy(d.words), AssignedTo(ds, name));
  }

  /** The evidence of a mined topic is exactly the findings that these definitions
      classify as that topic, and there are at least two. */
  ghost predicate ExactFor(env: Env, items: seq<Item>, m: Mined, defs: seq<Definition>) {
    && m.evidence == Supports(env, m.keywords, Filter(items, AssignedTo(defs, m.name)))
    && |m.evidence| >= MIN_FINDINGS_PER_TOPIC
  }

  ghost predicate ExactEvidence(env: Env, items: seq<Item>, ms: seq<Mined>) {
    forall k | 0 <= k < |ms| :: ExactFor(env, items, ms[k], DefsOf(ms))
  }

  lemma ExactTail(env: Env, items: seq<Item>, d: Definition, ds: seq<Definition>, m: Mined)
    requires m.name != d.name && ExactFor(env, Filter(items, NotClaimedBy(d.words)), m, ds)
    ensures ExactFor(env, items, m, [d] + ds)
  {
    AssignedTail(items, d, ds, m.name);
  }

  lemma ExactHead(env: Env, items: seq<Item>, m: Mined, ds: seq<Definition>)
    requires forall i | 0 <= i < |ds| :: ds[i].name != m.name
    requires m.evidence == Supports(env, m.keywords, Filter(items, ClaimedBy(m.keywords)))
    requires |m.evidence| >= MIN_FINDINGS_PER_TOPIC
    ensures ExactFor(env, items, m, [Definition(m.name, m.keywords)] + ds)
  {
    AssignedHead(items, Definition(m.name, m.keywords), ds);
  }

  lemma DefsOfCons(m: Mined, rest: seq<Mined>)
    ensures DefsOf([m] + rest) == [Definition(m.name, m.keywords)] + DefsOf(rest)
  {
  }

  lemma ExactEvidenceCons(env: Env, items: seq<Item>, m: Mined, rest: seq<Mined>)
    requires forall k | 0 <= k < |rest| :: rest[k].name != m.name
    requires m.evidence == Supports(env, m.keywords, Filter(items, ClaimedBy(m.keywords)))
    requires |m.evidence| >= MIN_FINDINGS_PER_TOPIC
    requires ExactEvidence(env, Filter(items, NotClaimedBy(m.keywords)), rest)
    ensures ExactEvidence(env, items, [m] + rest)
  {
    var d, ds := Definition(m.name, m.keywords), DefsOf(rest);
    DefsOfCons(m, rest);
    ExactHead(env, items, m, ds);
    forall k | 0 <= k < |rest| ensures ExactFor(env, items, rest[k], [d] + ds) {
      ExactTail(env, items, d, ds, rest[k]);
    }
    ExactOfCons(env, items, m, rest, [d] + ds);
  }

  lemma ExactOfCons(env: Env, items: seq<Item>, m: Mined, rest: seq<Mined>, defs: seq<Definition>)
    requires ExactFor(env, items, m, defs) && forall k | 0 <= k < |rest| :: ExactFor(env, items, rest[k], defs)
    ensures forall k | 0 <= k < |[m] + rest| :: ExactFor(env, items, ([m] + rest)[k], defs)
  {
    forall k | 0 <= k < |[m] + rest| ensures ExactFor(env, items, ([m] + rest)[k], defs) {
      assert ([m] + rest)[k] == if k == 0 then m else rest[k - 1];
    }
  }

  lemma {:induction false} MinedEvidence(env: Env, ws: seq<Work>, names: set<string>, ms: seq<Mined>)
    requires Chain(env, ws, names, ms)
    ensures ExactEvidence(env, ItemsIn(ws), ms)
    decreases |ms|
  {
    if ms != [] {
      var m, rest := ms[0], ms[1..];
      MinedEvidence(env, Rest(ws, m.keywords), names + {m.name}, rest);
      MinedNamesFresh(env, Rest(ws, m.keywords), names + {m.name}, rest);
      CoveringItems(ws, m.keywords);
      forall k | 0 <= k < |rest| ensures rest[k].name != m.name { assert rest[k].name !in names + {m.name}; }
      ExactEvidenceCons(env, ItemsIn(ws), m, rest);
      assert ms == [m] + rest;
    }
  }

  /** Mining over any input: at most two topics, all names new, keywords of
      different topics disjoint, every keyword new and publishable, and each
      finding counted for exactly the one topic that classifies it. */
  lemma MiningIsBoundedAndSeparated(env: Env, items: seq<Item>, defs: seq<Definition>, vocabulary: set<string>,
                                    background: set<string>)
    ensures var ms := Mine(env, items, defs, vocabulary, background);
            && |ms| <= MAX_NEW_TOPICS
            && NamesApart(ms, NameSet(defs))
            && (forall j, k | 0 <= j < k < |ms| :: WordSet(ms[j].keywords) !! WordSet(ms[k].keywords))
            && (forall k | 0 <= k < |ms| ::
                  && 1 <= |ms[k].keywords| <= MAX_KEYWORDS_PER_TOPIC && DistinctWords(ms[k].keywords)
                  && WordSet(ms[k].keywords) !! ExistingTokens(defs) && WordSet(ms[k].keywords) !! background
                  && forall w | w in WordSet(ms[k].keywords) :: Publishable(env, items, vocabulary, w))
            && ExactEvidence(env, items, ms)
  {
    var taken := ExistingTokens(defs) + background;
    var ws := WorksOf(env, items, taken, vocabulary);
    var ms := Mine(env, items, defs, vocabulary, background);
    MinedChain(env, ws, NameSet(defs), MAX_NEW_TOPICS);
    MinedNamesFresh(env, ws, NameSet(defs), ms);
    MinedKeywords(env, ws, NameSet(defs), ms);
    MinedEvidence(env, ws, NameSet(defs), ms);
    assert ItemsIn(ws) == items;
    PoolIsPublishable(env, items, taken, vocabulary);
    forall k | 0 <= k < |ms|
      ensures 1 <= |ms[k].keywords| <= MAX_KEYWORDS_PER_TOPIC && DistinctWords(ms[k].keywords)
      ensures WordSet(ms[k].keywords) !! ExistingTokens(defs) && WordSet(ms[k].keywords) !! background
      ensures forall w | w in WordSet(ms[k].keywords) :: Publishable(env, items, vocabulary, w)
    {
      assert TopicWords(ms[k].keywords, Universe(ws));
    }
  }

  lemma PoolIsPublishable(env: Env, items: seq<Item>, taken: set<string>, vocabulary: set<string>)
    ensures var pool := Universe(WorksOf(env, items, taken, vocabulary));
            pool !! taken && forall t | t in pool :: Publishable(env, items, vocabulary, t)
  {
    var pool := Universe(WorksOf(env, items, taken, vocabulary));
    forall t | t in pool ensures t !in taken && Publishable(env, items, vocabulary, t) {
      UniverseOfWorks(env, items, taken, vocabulary, t);
    }
  }

  // ---- what mining can see of field text ----

  /** The same archived finding, or field findings of one session that agree on
      which words of the pool occur in them. */
  ghost predicate LooksLike(a: Item, b: Item, pool: set<string>) {
    || (a.source.Archived? && a == b)
    || (&& a.source.Field? && a.source == b.source
        && forall w | w in pool :: Contains(Lower(a.finding), w) <==> Contains(Lower(b.finding), w))
  }

  ghost predicate SameTokens(a: seq<Work>, b: seq<Work>) {
    |a| == |b| && forall i | 0 <= i < |a| :: a[i].tokens == b[i].tokens
  }

  ghost predicate LookAlike(a: seq<Work>, b: seq<Work>, pool: set<string>) {
    SameTokens(a, b) && forall i | 0 <= i < |a| :: LooksLike(a[i].item, b[i].item, pool)
  }

  lemma {:induction false} SameDf(a: seq<Work>, b: seq<Work>, t: string)
    requires SameTokens(a, b)
    ensures Df(a, t) == Df(b, t)
  {
    if a != [] { SameDf(a[1..], b[1..], t); }
  }

  lemma {:induction false} SameUniverse(a: seq<Work>, b: seq<Work>)
    requires SameTokens(a, b)
    ensures Universe(a) == Universe(b)
  {
    if a != [] { SameUniverse(a[1..], b[1..]); }
  }

  lemma SameTop(a: seq<Work>, b: seq<Work>, s: set<string>)
    requires SameTokens(a, b) && s != {}
    ensures Top(a, s) == Top(b, s)
  {
    var t, u := Top(a, s), Top(b, s);
    SameDf(a, b, t);
    SameDf(a, b, u);
    TopBeats(a, s, u);
    TopBeats(b, s, t);
    StringAntisymmetric(t, u);
  }

  lemma {:induction false} SameTopK(a: seq<Work>, b: seq<Work>, s: set<string>, k: nat)
    requires SameTokens(a, b)
    ensures TopK(a, s, k) == TopK(b, s, k)
    decreases k
  {
    if k > 0 && s != {} {
      SameTop(a, b, s);
      SameTopK(a, b, s - {Top(a, s)}, k - 1);
    }
  }

  lemma SameRecurring(a: seq<Work>, b: seq<Work>)
    requires SameTokens(a, b)
    ensures Recurring(a) == Recurring(b)
  {
    SameUniverse(a, b);
    forall t ensures Df(a, t) == Df(b, t) { SameDf(a, b, t); }
  }

  lemma SameTokensCons(x: Work, a: seq<Work>, y: Work, b: seq<Work>)
    requires SameTokens(a, b) && x.tokens == y.tokens
    ensures SameTokens([x] + a, [y] + b)
  {
  }

  lemma {:induction false} SameWithToken(a: seq<Work>, b: seq<Work>, t: string)
    requires SameTokens(a, b)
    ensures SameTokens(WithToken(a, t), WithToken(b, t))
  {
    if a != [] {
      SameWithToken(a[1..], b[1..], t);
      var x, y := WithToken(a[1..], t), WithToken(b[1..], t);
      if t in a[0].tokens { SameTokensCons(a[0], x, b[0], y); } else { EmptyConcat(x); EmptyConcat(y); }
    }
  }

  lemma SameCompanions(a: seq<Work>, b: seq<Work>, head: string)
    requires SameTokens(a, b)
    ensures Companions(a, head) == Companions(b, head)
  {
    var x, y := WithToken(a, head), WithToken(b, head);
    SameWithToken(a, b, head);
    SameRecurring(x, y);
    SameTopK(x, y, Recurring(x) - {head}, MAX_KEYWORDS_PER_TOPIC - 1);
  }

  lemma LookAlikeCons(x: Work, a: seq<Work>, y: Work, b: seq<Work>, pool: set<string>)
    requires LookAlike(a, b, pool) && x.tokens == y.tokens && LooksLike(x.item, y.item, pool)
    ensures LookAlike([x] + a, [y] + b, pool)
  {
  }

  lemma LookAlikeTail(a: seq<Work>, b: seq<Work>, pool: set<string>)
    requires LookAlike(a, b, pool) && a != []
    ensures LookAlike(a[1..], b[1..], pool) && a[0].tokens == b[0].tokens && LooksLike(a[0].item, b[0].item, pool)
  {
  }

  lemma SameClaims(a: Item, b: Item, words: seq<string>, pool: set<string>)
    requires LooksLike(a, b, pool) && WordSet(words) <= pool
    ensures Claims(words, a) <==> Claims(words, b)
  {
    forall i | 0 <= i < |words| ensures Contains(Lower(a.finding), words[i]) <==> Contains(Lower(b.finding), words[i]) {
      assert words[i] in WordSet(words);
    }
  }

  lemma {:induction false} SameCovering(a: seq<Work>, b: seq<Work>, words: seq<string>, pool: set<string>)
    requires LookAlike(a, b, pool) && WordSet(words) <= pool
    ensures LookAlike(Covering(a, words), Covering(b, words), pool)
  {
    if a != [] {
      LookAlikeTail(a, b, pool);
      SameCovering(a[1..], b[1..], words, pool);
      SameClaims(a[0].item, b[0].item, words, pool);
      var x, y := Covering(a[1..], words), Covering(b[1..], words);
      if Claims(words, a[0].item) { LookAlikeCons(a[0], x, b[0], y, pool); } else { EmptyConcat(x); EmptyConcat(y); }
    }
  }

  lemma {:induction false} SameRest(a: seq<Work>, b: seq<Work>, words: seq<string>, pool: set<string>)
    requires LookAlike(a, b, pool) && WordSet(words) <= pool
    ensures LookAlike(Rest(a, words), Rest(b, words), pool)
  {
    if a != [] {
      LookAlikeTail(a, b, pool);
      SameRest(a[1..], b[1..], words, pool);
      SameClaims(a[0].item, b[0].item, words, pool);
      var x, y := Rest(a[1..], words), Rest(b[1..], words);
      var left := a[0].tokens - WordSet(words);
      if Claims(words, a[0].item) { EmptyConcat(x); EmptyConcat(y); }
      else { LookAlikeCons(Work(a[0].item, left), x, Work(b[0].item, left), y, pool); }
    }
  }

  lemma SameSupport(env: Env, a: Item, b: Item, words: seq<string>, pool: set<string>)
    requires LooksLike(a, b, pool) && WordSet(words) <= pool
    ensures SupportFor(env, words, a) == SupportFor(env, words, b)
  {
    if a.source.Field? {
      var p, q := (w: string) => Contains(Lower(a.finding), w), (w: string) => Contains(Lower(b.finding), w);
      forall w | w in words ensures p(w) <==> q(w) { assert w in WordSet(words); }
      FilterSame(words, p, q);
      SupportOfField(env, words, a);
      SupportOfField(env, words, b);
    }
  }

  lemma SupportOfField(env: Env, words: seq<string>, it: Item)
    requires it.source.Field?
    ensures SupportFor(env, words, it)
            == FieldSupport(it.source.trace, Filter(words, (w: string) => Contains(Lower(it.finding), w)))
  {
  }

  lemma SameNextTopic(a: seq<Work>, b: seq<Work>, pool: set<string>)
    requires LookAlike(a, b, pool) && Universe(a) <= pool
    ensures NextTopic(a) == NextTopic(b)
  {
    SameRecurring(a, b);
    if a != [] && Recurring(a) != {} {
      var head := Top(a, Recurring(a));
      SameTop(a, b, Recurring(a));
      SameCompanions(a, b, head);
      var words := [head] + Companions(a, head);
      UniverseOfFiltered(a, head);
      SameCovering(a, b, words, pool);
    }
  }

  lemma SameMined(env: Env, a: seq<Work>, b: seq<Work>, words: seq<string>, pool: set<string>)
    requires LookAlike(a, b, pool) && WordSet(words) <= pool
    ensures Supports(env, words, ItemsIn(Covering(a, words))) == Supports(env, words, ItemsIn(Covering(b, words)))
  {
    SameCovering(a, b, words, pool);
    var x, y := Covering(a, words), Covering(b, words);
    forall i | 0 <= i < |x| ensures SupportFor(env, words, x[i].item) == SupportFor(env, words, y[i].item) {
      SameSupport(env, x[i].item, y[i].item, words, pool);
    }
  }

  lemma RestLooksAlike(a: seq<Work>, b: seq<Work>, words: seq<string>, pool: set<string>)
    requires LookAlike(a, b, pool) && Universe(a) <= pool && NextTopic(a) == Some(words)
    ensures WordSet(words) <= pool && LookAlike(Rest(a, words), Rest(b, words), pool)
            && Universe(Rest(a, words)) <= pool
  {
    NextTopicWords(a, words);
    SameRest(a, b, words, pool);
    UniverseOfRest(a, words);
  }

  ghost predicate MineAlike(env: Env, a: seq<Work>, b: seq<Work>, names: set<string>, slots: nat) {
    MineFrom(env, a, names, slots) == MineFrom(env, b, names, slots)
  }

  lemma SameStep(env: Env, a: seq<Work>, b: seq<Work>, names: set<string>, slots: nat, words: seq<string>, name: string)
    requires slots > 0 && NextTopic(a) == Some(words) && NextTopic(b) == Some(words)
    requires words != [] && name == FreshFrom(BaseOf(words), names, 1)
    requires Supports(env, words, ItemsIn(Covering(a, words))) == Supports(env, words, ItemsIn(Covering(b, words)))
    requires MineAlike(env, Rest(a, words), Rest(b, words), names + {name}, slots - 1)
    ensures MineAlike(env, a, b, names, slots)
  {
    MineOne(env, a, names, slots, words);
    MineOne(env, b, names, slots, words);
  }

  lemma NoneMined(env: Env, a: seq<Work>, b: seq<Work>, names: set<string>, slots: nat)
    requires slots == 0 || (NextTopic(a).None? && NextTopic(b).None?)
    ensures MineAlike(env, a, b, names, slots)
  {
  }

  /** What one round of mining makes of inputs that look alike. */
  lemma SameRound(env: Env, a: seq<Work>, b: seq<Work>, words: seq<string>, pool: set<string>)
    requires LookAlike(a, b, pool) && Universe(a) <= pool && NextTopic(a) == Some(words)
    ensures NextTopic(b) == Some(words) && words != []
    ensures Supports(env, words, ItemsIn(Covering(a, words))) == Supports(env, words, ItemsIn(Covering(b, words)))
  {
    SameNextTopic(a, b, pool);
    NextTopicWords(a, words);
    RestLooksAlike(a, b, words, pool);
    SameMined(env, a, b, words, pool);
  }

  lemma {:induction false} SameMining(env: Env, a: seq<Work>, b: seq<Work>, names: set<string>, slots: nat,
                                      pool: set<string>)
    requires LookAlike(a, b, pool) && Universe(a) <= pool
    ensures MineAlike(env, a, b, names, slots)
    decreases slots, 2
  {
    if slots > 0 && NextTopic(a).Some? {
      SameMiningOn(env, a, b, names, slots, pool, NextTopic(a).value);
    } else {
      SameNextTopic(a, b, pool);
      NoneMined(env, a, b, names, slots);
    }
  }

  lemma {:induction false} SameMiningOn(env: Env, a: seq<Work>, b: seq<Work>, names: set<string>, slots: nat,
                                        pool: set<string>, words: seq<string>)
    requires LookAlike(a, b, pool) && Universe(a) <= pool && slots > 0 && NextTopic(a) == Some(words)
    ensures MineAlike(env, a, b, names, slots)
    decreases slots, 1
  {
    SameRound(env, a, b, words, pool);
    var name := FreshFrom(BaseOf(words), names, 1);
    SameLater(env, a, b, names + {name}, slots - 1, pool, words);
    SameStep(env, a, b, names, slots, words, name);
  }

  lemma {:induction false} SameLater(env: Env, a: seq<Work>, b: seq<Work>, names: set<string>, slots: nat,
                                     pool: set<string>, words: seq<string>)
    requires LookAlike(a, b, pool) && Universe(a) <= pool && NextTopic(a) == Some(words)
    ensures MineAlike(env, Rest(a, words), Rest(b, words), names, slots)
    decreases slots, 3
  {
    RestLooksAlike(a, b, words, pool);
    SameMining(env, Rest(a, words), Rest(b, words), names, slots, pool);
  }

  /** Of field text nothing else reaches the policy: two inputs with the same
      archived findings, whose field findings agree on session, on the tokens the
      vocabulary allows and on which candidate keywords occur in them, are mined
      into the same topics with the same evidence. */
  lemma FieldTextIsUnseen(env: Env, a: seq<Item>, b: seq<Item>, defs: seq<Definition>, vocabulary: set<string>,
                          background: set<string>)
    requires |a| == |b|
    requires var taken := ExistingTokens(defs) + background;
             var pool := Universe(WorksOf(env, a, taken, vocabulary));
             forall i | 0 <= i < |a| ::
               && LooksLike(a[i], b[i], pool)
               && Allowed(env, a[i], taken, vocabulary) == Allowed(env, b[i], taken, vocabulary)
    ensures Mine(env, a, defs, vocabulary, background) == Mine(env, b, defs, vocabulary, background)
  {
    var taken := ExistingTokens(defs) + background;
    var x, y := WorksOf(env, a, taken, vocabulary), WorksOf(env, b, taken, vocabulary);
    SameMining(env, x, y, NameSet(defs), MAX_NEW_TOPICS, Universe(x));
  }

  // ---- mined topics are valid topics ----

  lemma TokenNameIsValid(words: seq<string>, name: string, k: nat)
    requires words != [] && (forall i | 0 <= i < |words| :: TokenShape(words[i]))
    requires k >= 1 && name == Candidate(BaseOf(words), k)
    ensures ValidName(name)
  {
    var base := BaseOf(words);
    assert base[0] == words[0][0];
    forall i | 0 <= i < |base| ensures IsLetter(base[i]) || base[i] == '-' || base[i] == '_' { }
    assert name[0] == base[0];
    if k > 1 {
      var d := Decimal(k);
      assert name[|name| - 1] == d[|d| - 1];
      forall i | 0 <= i < |name| ensures name[i] != '@' {
        if i > |base| { assert name[i] == d[i - |base| - 1]; }
      }
    } else if |words| > 1 {
      assert base[|base| - 1] == words[1][|words[1]| - 1];
    } else {
      assert base[|base| - 1] == words[0][|words[0]| - 1];
    }
  }

  ghost predicate WellNamed(ms: seq<Mined>) {
    forall k | 0 <= k < |ms| :: ValidName(ms[k].name) && ms[k].keywords != []
      && forall w | w in ms[k].keywords :: w != ""
  }

  lemma WellNamedCons(m: Mined, rest: seq<Mined>)
    requires WellNamed(rest) && ValidName(m.name) && m.keywords != [] && forall w | w in m.keywords :: w != ""
    ensures WellNamed([m] + rest)
  {
  }

  lemma {:induction false} MinedNamesValid(env: Env, ws: seq<Work>, names: set<string>, ms: seq<Mined>)
    requires Chain(env, ws, names, ms)
    requires forall t | t in Universe(ws) :: TokenShape(t)
    ensures WellNamed(ms)
    decreases |ms|
  {
    if ms != [] {
      var m := ms[0];
      UniverseOfRest(ws, m.keywords);
      NextIsValid(env, ws, names, m);
      MinedNamesValid(env, Rest(ws, m.keywords), names + {m.name}, ms[1..]);
      WellNamedCons(m, ms[1..]);
      assert ms == [m] + ms[1..];
    }
  }

  lemma NextIsValid(env: Env, ws: seq<Work>, names: set<string>, m: Mined)
    requires Next(env, ws, names, m) && forall t | t in Universe(ws) :: TokenShape(t)
    ensures ValidName(m.name) && m.keywords != [] && forall w | w in m.keywords :: w != ""
  {
    forall w | w in m.keywords ensures TokenShape(w) { assert w in WordSet(m.keywords); }
    var j :| j >= 1 && m.name == Candidate(BaseOf(m.keywords), j);
    TokenNameIsValid(m.keywords, m.name, j);
  }

  lemma MinedAreValid(env: Env, items: seq<Item>, defs: seq<Definition>, vocabulary: set<string>,
                      background: set<string>)
    requires WellFormed(env)
    ensures WellNamed(Mine(env, items, defs, vocabulary, background))
  {
    var taken := ExistingTokens(defs) + background;
    var ws := WorksOf(env, items, taken, vocabulary);
    forall t | t in Universe(ws) ensures TokenShape(t) {
      UniverseOfWorks(env, items, taken, vocabulary, t);
    }
    MinedChain(env, ws, NameSet(defs), MAX_NEW_TOPICS);
    MinedNamesValid(env, ws, NameSet(defs), Mine(env, items, defs, vocabulary, background));
  }
}
