/** historical_definitions of scripts/measure-policy-validity.py: every keyword
    definition any recorded policy ever used stays searchable. */
module Definitions {
  import opened Records
  import opened ImprovementPolicy
  import opened Measuring

  /** The definition tag is a hash, taken to be injective. */
  ghost predicate Injective(tag: seq<string> -> string) {
    forall a, b {:trigger tag(a), tag(b)} :: tag(a) == tag(b) ==> a == b
  }

  predicate HasKey(defs: seq<Definition>, key: string) {
    exists i | 0 <= i < |defs| :: defs[i].name == key
  }

  /** The name is recorded, plainly or under a tag, with exactly these words. */
  predicate Recorded(defs: seq<Definition>, name: string, words: seq<string>) {
    exists i | 0 <= i < |defs| :: BaseName(defs[i].name) == name && defs[i].words == words
  }

  function Tagged(name: string, words: seq<string>, tag: seq<string> -> string): string {
    name + "@" + tag(words)
  }

  /** extra[key] = words */
  function Assign(extra: seq<Definition>, key: string, words: seq<string>): seq<Definition> {
    if extra == [] then [Definition(key, words)]
    else if extra[0].name == key then [Definition(key, words)] + extra[1..]
    else [extra[0]] + Assign(extra[1..], key, words)
  }

  function Remember(extra: seq<Definition>, keywords: seq<Definition>, d: Definition,
                    tag: seq<string> -> string): seq<Definition> {
    if d.words == [] then extra
    else if (HasKey(keywords, d.name) && WordsOf(keywords, d.name) == d.words) || Recorded(extra, d.name, d.words) then
      extra
    else
      var key := if !HasKey(keywords, d.name) && !HasKey(extra, d.name) then d.name else Tagged(d.name, d.words, tag);
      Assign(extra, key, d.words)
  }

  function RememberAll(extra: seq<Definition>, keywords: seq<Definition>, ds: seq<Definition>,
                       tag: seq<string> -> string): seq<Definition>
    decreases |ds|
  {
    if ds == [] then extra else RememberAll(Remember(extra, keywords, ds[0], tag), keywords, ds[1..], tag)
  }

  /** Every (topic, keywords) pair of every snapshot, in history order. */
  function Mentioned(history: seq<HistoryEntry>): seq<Definition> {
    if history == [] then []
    else (if history[0].policy.Some? then Keywords(history[0].policy.value.topics) else []) + Mentioned(history[1..])
  }

  function HistoricalDefinitions(history: seq<HistoryEntry>, keywords: seq<Definition>,
                                 tag: seq<string> -> string): seq<Definition> {
    RememberAll([], keywords, Mentioned(history), tag)
  }

  /** A valid topic's definition: a name without '@'. */
  predicate PlainName(d: Definition) { '@' !in d.name }

  ghost predicate Plain(ds: seq<Definition>) { forall i | 0 <= i < |ds| :: PlainName(ds[i]) }

  ghost predicate DistinctKeys(ds: seq<Definition>) {
    forall i, j | 0 <= i < j < |ds| :: ds[i].name != ds[j].name
  }

  // ---- names and keys ----

  lemma {:induction false} BaseOfPlain(name: string)
    requires '@' !in name
    ensures BaseName(name) == name
  {
    if name != "" {
      BaseOfPlain(name[1..]);
      assert name == [name[0]] + name[1..];
    }
  }

  lemma {:induction false} BaseOfTagged(name: string, rest: string)
    requires '@' !in name
    ensures BaseName(name + "@" + rest) == name
  {
    var key := name + "@" + rest;
    if name == "" {
      assert key[0] == '@';
    } else {
      BaseOfTagged(name[1..], rest);
      assert key[0] == name[0] && key[1..] == name[1..] + "@" + rest;
      assert name == [name[0]] + name[1..];
    }
  }

  lemma TagsTellApart(name: string, a: seq<string>, b: seq<string>, tag: seq<string> -> string)
    requires Injective(tag) && Tagged(name, a, tag) == Tagged(name, b, tag)
    ensures a == b
  {
    var p := name + "@";
    assert Tagged(name, a, tag)[|p|..] == tag(a) && Tagged(name, b, tag)[|p|..] == tag(b);
  }

  lemma {:induction false} WordsOfKey(defs: seq<Definition>, i: nat)
    requires DistinctKeys(defs) && i < |defs|
    ensures WordsOf(defs, defs[i].name) == defs[i].words
  {
    if i > 0 {
      assert defs[0].name != defs[i].name;
      forall p, q | 0 <= p < q < |defs[1..]|
        ensures defs[1..][p].name != defs[1..][q].name { assert defs[p + 1].name != defs[q + 1].name; }
      WordsOfKey(defs[1..], i - 1);
    }
  }

  lemma {:induction false} WordsOfAbsent(defs: seq<Definition>, name: string)
    requires !HasKey(defs, name)
    ensures WordsOf(defs, name) == []
  {
    if defs != [] {
      assert defs[0].name != name;
      forall i | 0 <= i < |defs[1..]| ensures defs[1..][i].name != name { assert defs[i + 1].name != name; }
      WordsOfAbsent(defs[1..], name);
    }
  }

  lemma {:induction false} FirstVariantFacts(defs: seq<Definition>, name: string, words: seq<string>)
    ensures FirstVariant(defs, name, words).None? <==> !Recorded(defs, name, words)
    ensures FirstVariant(defs, name, words).Some? ==>
              exists i | 0 <= i < |defs| ::
                defs[i].name == FirstVariant(defs, name, words).value && BaseName(defs[i].name) == name
                  && defs[i].words == words
  {
    if defs != [] {
      FirstVariantFacts(defs[1..], name, words);
      if Recorded(defs, name, words) && !(BaseName(defs[0].name) == name && defs[0].words == words) {
        var i :| 0 <= i < |defs| && BaseName(defs[i].name) == name && defs[i].words == words;
        assert defs[1..][i - 1] == defs[i];
      }
      if FirstVariant(defs[1..], name, words).Some? {
        var i :| 0 <= i < |defs[1..]| && defs[1..][i].name == FirstVariant(defs[1..], name, words).value
          && BaseName(defs[1..][i].name) == name && defs[1..][i].words == words;
        assert defs[i + 1] == defs[1..][i];
      }
    }
  }

  /** In a dictionary with distinct keys, a recorded definition resolves to a key
      of that name holding exactly its words; an unrecorded one resolves to none. */
  lemma ResolvesExactly(defs: seq<Definition>, name: string, words: seq<string>)
    requires DistinctKeys(defs) && '@' !in name && words != []
    ensures ResolveEvidenceKey(defs, name, words).Some? <==> Recorded(defs, name, words)
    ensures ResolveEvidenceKey(defs, name, words).Some? ==>
              var key := ResolveEvidenceKey(defs, name, words).value;
              HasKey(defs, key) && BaseName(key) == name && WordsOf(defs, key) == words
  {
    BaseOfPlain(name);
    FirstVariantFacts(defs, name, words);
    if defs != [] {
      if WordsOf(defs, name) == words {
        if !HasKey(defs, name) { WordsOfAbsent(defs, name); }
        assert HasKey(defs, name);
        var i :| 0 <= i < |defs| && defs[i].name == name;
        WordsOfKey(defs, i);
      } else if Recorded(defs, name, words) {
        var i :| 0 <= i < |defs| && defs[i].name == FirstVariant(defs, name, words).value
          && BaseName(defs[i].name) == name && defs[i].words == words;
        WordsOfKey(defs, i);
      }
    }
  }

  // ---- the extra definitions ----

  /** Keys stay apart from the current names and from each other, and a key with
      '@' is the tag of its own words. */
  ghost predicate ExtraOk(extra: seq<Definition>, keywords: seq<Definition>, tag: seq<string> -> string) {
    && DistinctKeys(extra)
    && (forall i | 0 <= i < |extra| :: !HasKey(keywords, extra[i].name))
    && (forall i | 0 <= i < |extra| ::
          '@' in extra[i].name ==> extra[i].name == Tagged(BaseName(extra[i].name), extra[i].words, tag))
  }

  lemma {:induction false} AssignFresh(extra: seq<Definition>, key: string, words: seq<string>)
    requires !HasKey(extra, key)
    ensures Assign(extra, key, words) == extra + [Definition(key, words)]
  {
    if extra != [] {
      assert extra[0].name != key;
      forall i | 0 <= i < |extra[1..]| ensures extra[1..][i].name != key { assert extra[i + 1].name != key; }
      AssignFresh(extra[1..], key, words);
      assert extra == [extra[0]] + extra[1..];
    }
  }

  /** The key chosen for a new definition is unused: it never overwrites another. */
  lemma NewKeyIsUnused(extra: seq<Definition>, keywords: seq<Definition>, d: Definition, tag: seq<string> -> string)
    requires Injective(tag) && ExtraOk(extra, keywords, tag) && Plain(keywords) && PlainName(d)
    requires !Recorded(extra, d.name, d.words)
    ensures !HasKey(extra, Tagged(d.name, d.words, tag)) && !HasKey(keywords, Tagged(d.name, d.words, tag))
  {
    var key := Tagged(d.name, d.words, tag);
    assert key[|d.name|] == '@';
    BaseOfTagged(d.name, tag(d.words));
    forall i | 0 <= i < |extra| ensures extra[i].name != key {
      if extra[i].name == key {
        assert extra[i].name == Tagged(d.name, extra[i].words, tag);
        TagsTellApart(d.name, extra[i].words, d.words, tag);
      }
    }
    forall i | 0 <= i < |keywords| ensures keywords[i].name != key { assert PlainName(keywords[i]); }
  }

  lemma RememberFacts(extra: seq<Definition>, keywords: seq<Definition>, d: Definition, tag: seq<string> -> string)
    requires Injective(tag) && ExtraOk(extra, keywords, tag) && Plain(keywords) && DistinctKeys(keywords)
             && PlainName(d)
    ensures var after := Remember(extra, keywords, d, tag);
            && ExtraOk(after, keywords, tag) && extra <= after
            && (d.words != [] ==> Recorded(keywords + after, d.name, d.words))
  {
    var after := Remember(extra, keywords, d, tag);
    BaseOfPlain(d.name);
    if d.words == [] {
    } else if HasKey(keywords, d.name) && WordsOf(keywords, d.name) == d.words {
      var i :| 0 <= i < |keywords| && keywords[i].name == d.name;
      WordsOfKey(keywords, i);
      assert (keywords + after)[i] == keywords[i];
    } else if Recorded(extra, d.name, d.words) {
      var i :| 0 <= i < |extra| && BaseName(extra[i].name) == d.name && extra[i].words == d.words;
      assert (keywords + after)[|keywords| + i] == extra[i];
    } else {
      NewKeyIsUnused(extra, keywords, d, tag);
      BaseOfTagged(d.name, tag(d.words));
      var key := if !HasKey(keywords, d.name) && !HasKey(extra, d.name) then d.name else Tagged(d.name, d.words, tag);
      AssignFresh(extra, key, d.words);
      NewDefinition(extra, keywords, key, d.words, tag);
    }
  }

  lemma NewDefinition(extra: seq<Definition>, keywords: seq<Definition>, key: string, words: seq<string>,
                      tag: seq<string> -> string)
    requires ExtraOk(extra, keywords, tag) && !HasKey(extra, key) && !HasKey(keywords, key)
    requires '@' in key ==> key == Tagged(BaseName(key), words, tag)
    ensures var after := extra + [Definition(key, words)];
            ExtraOk(after, keywords, tag) && Recorded(keywords + after, BaseName(key), words)
  {
    var after := extra + [Definition(key, words)];
    assert (keywords + after)[|keywords| + |extra|] == Definition(key, words);
  }

  lemma RecordedStays(keywords: seq<Definition>, extra: seq<Definition>, after: seq<Definition>, name: string,
                      words: seq<string>)
    requires extra <= after && Recorded(keywords + extra, name, words)
    ensures Recorded(keywords + after, name, words)
  {
    var i :| 0 <= i < |keywords + extra| && BaseName((keywords + extra)[i].name) == name
      && (keywords + extra)[i].words == words;
    assert (keywords + after)[i] == (keywords + extra)[i];
  }

  lemma {:induction false} RememberAllFacts(extra: seq<Definition>, keywords: seq<Definition>, ds: seq<Definition>,
                                            tag: seq<string> -> string)
    requires Injective(tag) && ExtraOk(extra, keywords, tag) && Plain(keywords) && DistinctKeys(keywords) && Plain(ds)
    ensures var after := RememberAll(extra, keywords, ds, tag);
            && ExtraOk(after, keywords, tag) && extra <= after
            && forall i | 0 <= i < |ds| :: ds[i].words != [] ==> Recorded(keywords + after, ds[i].name, ds[i].words)
    decreases |ds|
  {
    if ds != [] {
      var next, after := Remember(extra, keywords, ds[0], tag), RememberAll(extra, keywords, ds, tag);
      RememberFacts(extra, keywords, ds[0], tag);
      forall i | 0 <= i < |ds[1..]| ensures PlainName(ds[1..][i]) { assert ds[1..][i] == ds[i + 1]; }
      RememberAllFacts(next, keywords, ds[1..], tag);
      forall i | 0 <= i < |ds| && ds[i].words != [] ensures Recorded(keywords + after, ds[i].name, ds[i].words) {
        if i == 0 { RecordedStays(keywords, next, after, ds[0].name, ds[0].words); }
        else { assert ds[i] == ds[1..][i - 1]; }
      }
    }
  }

  /** What is mentioned is what some recorded policy defines. */
  lemma {:induction false} MentionedBySnapshot(history: seq<HistoryEntry>, d: Definition)
    ensures d in Mentioned(history) <==>
              exists i | 0 <= i < |history| :: history[i].policy.Some? && d in Keywords(history[i].policy.value.topics)
  {
    if history != [] {
      var rest := history[1..];
      MentionedBySnapshot(rest, d);
      if exists i | 0 <= i < |history| :: history[i].policy.Some? && d in Keywords(history[i].policy.value.topics) {
        var i :| 0 <= i < |history| && history[i].policy.Some? && d in Keywords(history[i].policy.value.topics);
        if i > 0 { assert rest[i - 1] == history[i]; }
      }
      if d in Mentioned(rest) {
        var i :| 0 <= i < |rest| && rest[i].policy.Some? && d in Keywords(rest[i].policy.value.topics);
        assert history[i + 1] == rest[i];
      }
    }
  }

  /** No definition is ever lost: every (topic, keywords) pair of any recorded
      version resolves, among the current keywords and the historical ones, to a
      key of that topic searched with exactly those keywords. */
  lemma NoDefinitionIsLost(history: seq<HistoryEntry>, keywords: seq<Definition>, tag: seq<string> -> string, i: nat)
    requires Injective(tag) && Plain(keywords) && DistinctKeys(keywords) && Plain(Mentioned(history))
    requires i < |Mentioned(history)| && Mentioned(history)[i].words != []
    ensures var d, defs := Mentioned(history)[i], keywords + HistoricalDefinitions(history, keywords, tag);
            var key := ResolveEvidenceKey(defs, d.name, d.words);
            key.Some? && HasKey(defs, key.value) && BaseName(key.value) == d.name && WordsOf(defs, key.value) == d.words
  {
    var d, extra := Mentioned(history)[i], HistoricalDefinitions(history, keywords, tag);
    RememberAllFacts([], keywords, Mentioned(history), tag);
    CombinedKeysDistinct(keywords, extra, tag);
    assert PlainName(d);
    ResolvesExactly(keywords + extra, d.name, d.words);
  }

  lemma CombinedKeysDistinct(keywords: seq<Definition>, extra: seq<Definition>, tag: seq<string> -> string)
    requires DistinctKeys(keywords) && ExtraOk(extra, keywords, tag)
    ensures DistinctKeys(keywords + extra)
  {
    var all := keywords + extra;
    forall i, j | 0 <= i < j < |all| ensures all[i].name != all[j].name {
      if i < |keywords| <= j { assert !HasKey(keywords, extra[j - |keywords|].name); }
    }
  }
}
