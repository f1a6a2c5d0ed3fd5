/** mine_trace of scripts/mine-trace-failures.py: the failures of one session, and
    when matching them on joined text finds more than their sightings show. */
module FailureMining {
  import opened Text
  import opened Sorting
  import opened ImprovementPolicy
  import opened TraceEvidence

  // ---- what mining builds ----

  const MAX_TEXT_CHARS := 20_000_000

  /** A failed tool result: when it came, the tool, the command, which has been
      scrubbed, and the output. */
  datatype Event = Event(timestamp: Option<int>, tool: string, command: string, output: string)

  function FullText(e: Event): string { Lower(e.command + " " + e.output) }

  function Sighting(e: Event): Occurrence {
    var full := FullText(e);
    if |full| > MAX_TEXT_CHARS then Occurrence(e.timestamp, full[..MAX_TEXT_CHARS], true)
    else Occurrence(e.timestamp, full, false)
  }

  function Sightings(es: seq<Event>): (os: seq<Occurrence>)
    ensures |os| == |es|
  {
    seq(|es|, i requires 0 <= i < |es| => Sighting(es[i]))
  }

  /** How a command is shortened and an output excerpted. */
  datatype Digest = Digest(shorten: string -> string, excerpt: string -> string)

  /** What makes two events sightings of one failure. */
  datatype FailureKey = FailureKey(tool: string, command: string, excerpt: string)

  function KeyIn(d: Digest, e: Event): FailureKey { FailureKey(e.tool, d.shorten(e.command), d.excerpt(e.output)) }

  ghost predicate OneKey(d: Digest, es: seq<Event>) {
    forall i | 0 <= i < |es| :: KeyIn(d, es[i]) == KeyIn(d, es[0])
  }

  /** The failure of some events with one key, in the order they came. */
  function FailureOf(d: Digest, id: string, es: seq<Event>): Failure
    requires es != []
  {
    var key := KeyIn(d, es[0]);
    Failure(id, es[0].timestamp, key.command, key.excerpt, Sightings(es))
  }

  /** Some events make this failure. */
  ghost predicate Built(d: Digest, f: Failure) {
    exists id, es: seq<Event> :: es != [] && OneKey(d, es) && f == FailureOf(d, id, es)
  }

  lemma LowerTwice(s: string, n: nat)
    requires n <= |s|
    ensures Lower(Lower(s)[..n]) == Lower(s)[..n]
  {
  }

  lemma BuiltIsMined(d: Digest, f: Failure)
    requires Built(d, f)
    ensures Mined(f) && f.kept != []
  {
    var id, es: seq<Event> :| es != [] && OneKey(d, es) && f == FailureOf(d, id, es);
    forall o | o in f.kept ensures Lower(o.text) == o.text {
      var i :| 0 <= i < |es| && f.kept[i] == o;
      LowerTwice(es[i].command + " " + es[i].output, |o.text|);
    }
  }

  // ---- the mining loop ----

  function Keyed(d: Digest, es: seq<Event>, key: FailureKey): seq<Event> {
    Filter(es, HasKeyIn(d, key))
  }

  function HasKeyIn(d: Digest, key: FailureKey): Event -> bool { (e: Event) => KeyIn(d, e) == key }

  /** One failure for each key: that of all events with the key. */
  ghost predicate Collected(d: Digest, id: string, fs: map<FailureKey, Failure>, es: seq<Event>) {
    && (forall k :: k in fs <==> Keyed(d, es, k) != [])
    && forall k | k in fs :: fs[k] == FailureOf(d, id, Keyed(d, es, k))
  }

  lemma KeyedSnoc(d: Digest, es: seq<Event>, e: Event, key: FailureKey)
    ensures Keyed(d, es + [e], key) == Keyed(d, es, key) + (if KeyIn(d, e) == key then [e] else [])
  {
    FilterConcat(es, [e], HasKeyIn(d, key));
    assert [e][1..] == [];
    assert Filter([e], HasKeyIn(d, key)) == (if KeyIn(d, e) == key then [e] else []) + Filter([], HasKeyIn(d, key));
  }

  lemma KeyedHaveKey(d: Digest, es: seq<Event>, key: FailureKey)
    ensures forall i | 0 <= i < |Keyed(d, es, key)| :: KeyIn(d, Keyed(d, es, key)[i]) == key
  {
    forall i | 0 <= i < |Keyed(d, es, key)| ensures KeyIn(d, Keyed(d, es, key)[i]) == key {
      FilterMember(es, HasKeyIn(d, key), Keyed(d, es, key)[i]);
    }
  }

  lemma FailureSnoc(d: Digest, id: string, es: seq<Event>, e: Event)
    requires es != []
    ensures FailureOf(d, id, es + [e]) == FailureOf(d, id, es).(kept := Sightings(es) + [Sighting(e)])
  {
    assert Sightings(es + [e]) == Sightings(es) + [Sighting(e)];
  }

  /** The failed results of one session, sorted into failures: the first of a key
      makes the entry, and each later one adds its sighting to it. */
  method MineTrace(d: Digest, id: string, es: seq<Event>) returns (fs: map<FailureKey, Failure>)
    ensures Collected(d, id, fs, es)
  {
    fs := map[];
    for i := 0 to |es|
      invariant Collected(d, id, fs, es[..i])
    {
      var e := es[i];
      var key := KeyIn(d, e);
      ghost var before := fs;
      if key in fs {
        fs := fs[key := fs[key].(kept := fs[key].kept + [Sighting(e)])];
      } else {
        fs := fs[key := Failure(id, e.timestamp, key.command, key.excerpt, [Sighting(e)])];
      }
      CollectOne(d, id, before, es[..i], e, fs);
      assert es[..i + 1] == es[..i] + [e];
    }
    assert es[..|es|] == es;
  }

  lemma CollectOne(d: Digest, id: string, fs: map<FailureKey, Failure>, es: seq<Event>, e: Event,
                   next: map<FailureKey, Failure>)
    requires Collected(d, id, fs, es)
    requires var key := KeyIn(d, e);
             next == fs[key := if key in fs then fs[key].(kept := fs[key].kept + [Sighting(e)])
                               else Failure(id, e.timestamp, key.command, key.excerpt, [Sighting(e)])]
    ensures Collected(d, id, next, es + [e])
  {
    forall k
      ensures k in next <==> Keyed(d, es + [e], k) != []
      ensures k in next ==> next[k] == FailureOf(d, id, Keyed(d, es + [e], k))
    {
      KeyedSnoc(d, es, e, k);
      if k == KeyIn(d, e) {
        if k in fs { FailureSnoc(d, id, Keyed(d, es, k), e); } else { assert Sightings([e]) == [Sighting(e)]; }
      }
    }
  }

  /** The failures of Built are exactly those that the loop can yield. */
  lemma BuiltIsCollected(d: Digest, f: Failure)
    ensures Built(d, f) <==> exists id, es, fs :: Collected(d, id, fs, es) && f in fs.Values
  {
    if Built(d, f) {
      var id, es: seq<Event> :| es != [] && OneKey(d, es) && f == FailureOf(d, id, es);
      AloneCollected(d, id, es);
      var fs := map[KeyIn(d, es[0]) := f];
      assert fs[KeyIn(d, es[0])] == f;
      assert f in fs.Values;
    }
    forall id, es, fs | Collected(d, id, fs, es) && f in fs.Values ensures Built(d, f) {
      var k :| k in fs && fs[k] == f;
      KeyedHaveKey(d, es, k);
      assert OneKey(d, Keyed(d, es, k));
    }
  }

  lemma AloneCollected(d: Digest, id: string, es: seq<Event>)
    requires es != [] && OneKey(d, es)
    ensures Collected(d, id, map[KeyIn(d, es[0]) := FailureOf(d, id, es)], es)
  {
    var key := KeyIn(d, es[0]);
    FilterAll(es, HasKeyIn(d, key));
    assert Keyed(d, es, key) == es;
    forall k | k != key ensures Keyed(d, es, k) == [] { FilterNone(es, HasKeyIn(d, k)); }
  }

  // ---- when the joined text shows more than its parts ----

  ghost predicate ShownByOne(f: Failure, words: seq<string>) {
    exists o | o in Occurrences(f) :: Shows(o.text, words)
  }

  /** Every keyword with a space has a piece between spaces that shows the topic by
      itself. */
  predicate PiecesShow(words: seq<string>) {
    forall i | 0 <= i < |words| && ' ' in Lower(words[i]) :: SomePieceShows(Lower(words[i]), words)
  }

  predicate SomePieceShows(word: string, words: seq<string>) {
    exists k | 0 <= k < |Split(word, ' ')| :: Shows(Split(word, ' ')[k], words)
  }

  lemma ShowsInside(text: string, part: string, words: seq<string>)
    requires Contains(text, part) && Shows(part, words)
    ensures Shows(text, words)
  {
    var i :| 0 <= i < |words| && Contains(part, Lower(words[i]));
    ContainsInside(text, part, Lower(words[i]));
  }

  lemma OccurrenceWith(os: seq<Occurrence>, piece: string) returns (k: nat)
    requires os != [] && ' ' !in piece && Contains(Joined(os), piece)
    ensures k < |os| && Contains(os[k].text, piece)
  {
    WithinOnePart(Texts(os), ' ', piece);
    var p :| p in Texts(os) && Contains(p, piece);
    k :| 0 <= k < |os| && Texts(os)[k] == p;
  }

  lemma PieceInOneOccurrence(f: Failure, piece: string, words: seq<string>)
    requires ' ' !in piece && Contains(Joined(Occurrences(f)), piece) && Shows(piece, words)
    ensures ShownByOne(f, words)
  {
    var k := OccurrenceWith(Occurrences(f), piece);
    ShowsInside(Occurrences(f)[k].text, piece, words);
    assert Occurrences(f)[k] in Occurrences(f);
  }

  lemma WholeIsInside(text: string)
    ensures Contains(text, text)
  {
    assert OccursAt(text, text, 0);
  }

  lemma PiecesSuffice(f: Failure, words: seq<string>)
    requires PiecesShow(words) && Topical(f, words)
    ensures ShownByOne(f, words)
  {
    var i :| 0 <= i < |words| && Contains(Joined(Occurrences(f)), Lower(words[i]));
    var word := Lower(words[i]);
    if ' ' in word {
      var k :| 0 <= k < |Split(word, ' ')| && Shows(Split(word, ' ')[k], words);
      SplitFree(word, ' ');
      SplitInside(word, ' ');
      ContainsInside(Joined(Occurrences(f)), word, Split(word, ' ')[k]);
      PieceInOneOccurrence(f, Split(word, ' ')[k], words);
    } else {
      WholeIsInside(word);
      PieceInOneOccurrence(f, word, words);
    }
  }

  /** Matched on its joined text although no occurrence matches. */
  ghost predicate JoinedAlone(f: Failure, words: seq<string>) { Topical(f, words) && !ShownByOne(f, words) }

  /** One event, sighted twice. */
  function Twice(d: Digest, e: Event): Failure { FailureOf(d, "session", [e, e]) }

  lemma TwiceJoined(d: Digest, e: Event, words: seq<string>)
    ensures Built(d, Twice(d, e)) && Twice(d, e).kept == [Sighting(e), Sighting(e)]
    ensures Topical(Twice(d, e), words) <==> Shows(Sighting(e).text + [' '] + Sighting(e).text, words)
    ensures ShownByOne(Twice(d, e), words) <==> Shows(Sighting(e).text, words)
  {
    var f, text := Twice(d, e), Sighting(e).text;
    assert f == FailureOf(d, "session", [e, e]) && OneKey(d, [e, e]);
    assert Texts(f.kept) == [text, text] && [text, text][1..] == [text];
    assert Join([text, text], ' ') == text + [' '] + Join([text], ' ');
    assert f.kept[0] in f.kept;
  }

  // ---- a keyword that crosses from one sighting to the next ----

  /** An event whose text ends as the keyword begins and begins as the keyword ends. */
  function Crossing(first: string, rest: string, z: char): Event { Event(Some(0), "", rest + [z], [z] + first) }

  function CrossingText(first: string, rest: string, z: char): string { rest + [z] + ([' '] + [z] + first) }

  lemma CrossingIsSighted(first: string, rest: string, z: char)
    requires Lower(first) == first && Lower(rest) == rest && LowerChar(z) == z
    requires |first| + |rest| + 3 <= MAX_TEXT_CHARS
    ensures Sighting(Crossing(first, rest, z)) == Occurrence(Some(0), CrossingText(first, rest, z), false)
  {
    var e, text := Crossing(first, rest, z), CrossingText(first, rest, z);
    assert e.command + " " + e.output == text;
    LowerConcat(rest + [z], [' '] + [z] + first);
    LowerConcat(rest, [z]);
    LowerConcat([' '] + [z], first);
    assert Lower([z]) == [z] && Lower([' '] + [z]) == [' '] + [z];
  }

  lemma Crosses(first: string, rest: string, z: char)
    ensures var text := CrossingText(first, rest, z); Contains(text + [' '] + text, first + [' '] + rest)
  {
    var text := CrossingText(first, rest, z);
    var front, back := rest + [z] + ([' '] + [z]), [z] + ([' '] + [z] + first);
    var word := first + [' '] + rest;
    assert text + [' '] + text == front + word + back;
    assert (front + word + back)[|front|..|front| + |word|] == word;
    assert OccursAt(text + [' '] + text, word, |front|);
  }

  /** A word without z in such a text lies in what stands between the z's. */
  lemma BetweenMarks(first: string, rest: string, z: char, word: string)
    requires z !in word && Contains(CrossingText(first, rest, z), word)
    ensures Contains(rest, word) || Contains([' '], word) || Contains(first, word)
  {
    InOneOf(rest, z, [' '] + [z] + first, word);
    if Contains([' '] + [z] + first, word) { InOneOf([' '], z, first, word); }
  }

  lemma InOneOf(a: string, z: char, b: string, word: string)
    requires z !in word && Contains(a + [z] + b, word)
    ensures Contains(a, word) || Contains(b, word)
  {
    var at :| 0 <= at <= |a + [z] + b| - |word| && OccursAt(a + [z] + b, word, at);
    SplitOccurrence(a, z, b, word, at);
  }

  /** The mark occurs in no keyword and is lower case. */
  predicate Marks(z: char, words: seq<string>) {
    LowerChar(z) == z && forall j | 0 <= j < |words| :: z !in Lower(words[j])
  }

  /** The keyword would be cut off nowhere, with three characters to spare. */
  predicate Fits(word: string) { |word| + 2 <= MAX_TEXT_CHARS }

  ghost predicate Uncut(f: Failure) { forall o | o in f.kept :: !o.truncated }

  ghost predicate NoSpaceKeyword(words: seq<string>) { forall j | 0 <= j < |words| :: Lower(words[j]) != " " }

  lemma InSpace(word: string)
    requires Contains([' '], word)
    ensures word == "" || word == " "
  {
    var at :| 0 <= at <= |[' ']| - |word| && OccursAt([' '], word, at);
    forall i | 0 <= i < |word| ensures word[i] == ' ' { assert word[i] == [' '][at..at + |word|][i]; }
    SpaceOrEmpty(word);
  }

  lemma SpaceOrEmpty(word: string)
    requires |word| <= 1 && forall i | 0 <= i < |word| :: word[i] == ' '
    ensures word == "" || word == " "
  {
  }

  lemma EmptyShows(text: string, words: seq<string>, j: nat)
    requires j < |words| && Lower(words[j]) == ""
    ensures Shows(text, words)
  {
    assert OccursAt(text, Lower(words[j]), 0);
  }

  lemma CrossingShows(first: string, rest: string, z: char, words: seq<string>)
    requires Marks(z, words) && NoSpaceKeyword(words) && Shows(CrossingText(first, rest, z), words)
    ensures Shows(rest, words) || Shows(first, words)
  {
    var j :| 0 <= j < |words| && Contains(CrossingText(first, rest, z), Lower(words[j]));
    BetweenMarks(first, rest, z, Lower(words[j]));
    if Contains([' '], Lower(words[j])) {
      InSpace(Lower(words[j]));
      EmptyShows(rest, words, j);
    }
  }

  lemma CrossingAlone(d: Digest, first: string, rest: string, z: char, words: seq<string>, i: nat)
    requires Marks(z, words) && NoSpaceKeyword(words) && !Shows(first, words) && !Shows(rest, words)
    requires i < |words| && Lower(words[i]) == first + [' '] + rest && Fits(Lower(words[i]))
    ensures var f := Twice(d, Crossing(first, rest, z)); Built(d, f) && Uncut(f) && JoinedAlone(f, words)
    ensures Twice(d, Crossing(first, rest, z)).kept[0].text == CrossingText(first, rest, z)
  {
    PartsAreLower(words[i], first, rest);
    CrossingIsSighted(first, rest, z);
    TwiceJoined(d, Crossing(first, rest, z), words);
    Crosses(first, rest, z);
    if Shows(CrossingText(first, rest, z), words) { CrossingShows(first, rest, z, words); }
  }

  lemma PartsAreLower(word: string, first: string, rest: string)
    requires Lower(word) == first + [' '] + rest
    ensures Lower(first) == first && Lower(rest) == rest
  {
    LowerTwice(word, |word|);
    assert Lower(word)[..|word|] == Lower(word);
    LowerConcat(first + [' '], rest);
    LowerConcat(first, [' ']);
    assert Lower(Lower(word))[..|first|] == Lower(first) && Lower(word)[..|first|] == first;
    assert Lower(Lower(word))[|first| + 1..] == Lower(rest) && Lower(word)[|first| + 1..] == rest;
  }

  // ---- finding such a keyword ----

  lemma {:induction false} FirstSpace(word: string) returns (first: string, rest: string)
    requires ' ' in word
    ensures word == first + [' '] + rest && ' ' !in first && Split(word, ' ') == [first] + Split(rest, ' ')
  {
    if word[0] == ' ' {
      first, rest := "", word[1..];
    } else {
      first, rest := FirstSpace(word[1..]);
      first := [word[0]] + first;
    }
    assert word == first + [' '] + rest;
    SplitFirst(first, ' ', rest);
  }

  /** A keyword inside a keyword without showing pieces has none either. */
  lemma InnerHasNoPiece(word: string, inner: string, words: seq<string>)
    requires Contains(word, inner) && !SomePieceShows(word, words)
    ensures !SomePieceShows(inner, words)
  {
    if SomePieceShows(inner, words) {
      var k :| 0 <= k < |Split(inner, ' ')| && Shows(Split(inner, ' ')[k], words);
      var piece := Split(inner, ' ')[k];
      SplitFree(inner, ' ');
      SplitInside(inner, ' ');
      ContainsInside(word, inner, piece);
      JoinSplit(word, ' ');
      WithinOnePart(Split(word, ' '), ' ', piece);
      var part :| part in Split(word, ' ') && Contains(part, piece);
      ShowsInside(part, piece, words);
    }
  }

  lemma SpacelessShowsItself(words: seq<string>, j: nat)
    requires j < |words| && ' ' !in Lower(words[j])
    ensures SomePieceShows(Lower(words[j]), words)
  {
    SplitSingle(Lower(words[j]), ' ');
    WholeIsInside(Lower(words[j]));
    assert Shows(Split(Lower(words[j]), ' ')[0], words);
  }

  /** Among keywords without showing pieces, one whose rest shows nothing. */
  lemma {:induction false} Shortest(words: seq<string>, i: nat) returns (j: nat, first: string, rest: string)
    requires i < |words| && !SomePieceShows(Lower(words[i]), words)
    ensures j < |words| && Lower(words[j]) == first + [' '] + rest && !Shows(first, words) && !Shows(rest, words)
    decreases |words[i]|
  {
    if ' ' !in Lower(words[i]) { SpacelessShowsItself(words, i); }
    first, rest := FirstSpace(Lower(words[i]));
    assert Split(Lower(words[i]), ' ')[0] == first;
    if Shows(rest, words) {
      var k :| 0 <= k < |words| && Contains(rest, Lower(words[k]));
      ContainsMore(first + [' '], rest, Lower(words[k]));
      InnerHasNoPiece(Lower(words[i]), Lower(words[k]), words);
      j, first, rest := Shortest(words, k);
    } else {
      j := i;
    }
  }

  // ---- a space as keyword ----

  lemma SpaceIsShown(d: Digest, f: Failure, words: seq<string>, j: nat)
    requires Built(d, f) && Uncut(f) && j < |words| && Lower(words[j]) == " "
    ensures ShownByOne(f, words)
  {
    var id, es: seq<Event> :| es != [] && OneKey(d, es) && f == FailureOf(d, id, es);
    var o, e := Sighting(es[0]), es[0];
    assert f.kept[0] == o && o in f.kept;
    assert o.text == FullText(e) && FullText(e)[|e.command|] == ' ';
    assert o.text[|e.command|..|e.command| + 1] == " ";
    assert OccursAt(o.text, Lower(words[j]), |e.command|);
  }

  function Marked(z: char): string { seq(MAX_TEXT_CHARS, i => z) }

  /** An event whose text is cut off before its space. */
  function Endless(z: char): Event { Event(Some(0), "", Marked(z), "") }

  lemma EndlessIsCut(z: char)
    requires LowerChar(z) == z
    ensures Sighting(Endless(z)) == Occurrence(Some(0), Marked(z), true)
  {
    var e := Endless(z);
    LowerConcat(Marked(z), " ");
    assert e.command + " " + e.output == Marked(z) + " ";
    assert Lower(Marked(z)) == Marked(z);
    assert FullText(e)[..MAX_TEXT_CHARS] == Marked(z);
  }

  lemma MarkedShowsNothing(z: char, words: seq<string>)
    requires Marks(z, words) && forall j | 0 <= j < |words| :: words[j] != ""
    ensures !Shows(Marked(z), words)
  {
    forall j | 0 <= j < |words| ensures !Contains(Marked(z), Lower(words[j])) {
      assert Lower(words[j])[0] in Lower(words[j]);
      LacksFirst(Marked(z), Lower(words[j]));
    }
  }

  lemma EndlessAlone(d: Digest, z: char, words: seq<string>, i: nat)
    requires Marks(z, words) && i < |words| && Lower(words[i]) == " " && !PiecesShow(words)
    ensures Built(d, Twice(d, Endless(z))) && JoinedAlone(Twice(d, Endless(z)), words)
  {
    var text := Marked(z);
    forall j | 0 <= j < |words| ensures words[j] != "" {
      if words[j] == "" { AllPiecesShow(words, j); }
    }
    EndlessIsCut(z);
    TwiceJoined(d, Endless(z), words);
    MarkedShowsNothing(z, words);
    assert (text + [' '] + text)[|text|..|text| + 1] == " ";
    assert OccursAt(text + [' '] + text, Lower(words[i]), |text|);
  }

  lemma AllPiecesShow(words: seq<string>, j: nat)
    requires j < |words| && words[j] == ""
    ensures PiecesShow(words)
  {
    forall i | 0 <= i < |words| && ' ' in Lower(words[i]) ensures SomePieceShows(Lower(words[i]), words) {
      EmptyShows(Split(Lower(words[i]), ' ')[0], words, j);
    }
  }

  // ---- exactly when ----

  lemma PieceMissing(words: seq<string>) returns (i: nat)
    requires !PiecesShow(words)
    ensures i < |words| && !SomePieceShows(Lower(words[i]), words)
  {
    i :| 0 <= i < |words| && ' ' in Lower(words[i]) && !SomePieceShows(Lower(words[i]), words);
  }

  lemma UncutAlone(d: Digest, words: seq<string>, z: char)
    requires Marks(z, words) && (forall j | 0 <= j < |words| :: Fits(words[j]))
    requires !PiecesShow(words) && NoSpaceKeyword(words)
    ensures exists f :: Built(d, f) && Uncut(f) && JoinedAlone(f, words)
  {
    var i := PieceMissing(words);
    var j, first, rest := Shortest(words, i);
    CrossingAlone(d, first, rest, z, words, j);
  }

  /** Mining can build a failure that is matched on joined text alone if and only if
      some keyword with a space has no piece that shows the topic. From texts that
      are not cut off, the one exception is a keyword that is just a space: those
      texts all show it. The keywords must leave some character unused, and fit. */
  lemma JoiningAddsNothingIff(d: Digest, words: seq<string>, z: char)
    requires Marks(z, words) && forall j | 0 <= j < |words| :: Fits(words[j])
    ensures (exists f :: Built(d, f) && JoinedAlone(f, words)) <==> !PiecesShow(words)
    ensures (exists f :: Built(d, f) && Uncut(f) && JoinedAlone(f, words))
            <==> !PiecesShow(words) && NoSpaceKeyword(words)
  {
    if PiecesShow(words) {
      forall f | Topical(f, words) ensures ShownByOne(f, words) { PiecesSuffice(f, words); }
    } else if NoSpaceKeyword(words) {
      UncutAlone(d, words, z);
    } else {
      var i :| 0 <= i < |words| && Lower(words[i]) == " ";
      EndlessAlone(d, z, words, i);
      forall f | Built(d, f) && Uncut(f) ensures ShownByOne(f, words) { SpaceIsShown(d, f, words, i); }
    }
  }

  lemma {:induction false} NoneMatched(os: seq<Occurrence>, words: seq<string>)
    requires forall o | o in os :: !Shows(o.text, words)
    ensures Matched(os, words) == []
  {
    if os != [] { NoneMatched(os[1..], words); }
  }

  /** A failure matched on joined text alone has no known time. */
  lemma JoinedAloneIsUndated(f: Failure, words: seq<string>)
    requires !ShownByOne(f, words)
    ensures FirstMatchTime(f, words).None? && (Mined(f) ==> EveryMatchTime(f, words).None?)
  {
    NoneMatched(Occurrences(f), words);
    if Mined(f) { LoweredIsKept(f); }
  }

  lemma CrossingUndated(d: Digest, first: string, rest: string, z: char, words: seq<string>, i: nat)
    requires Marks(z, words) && NoSpaceKeyword(words) && !Shows(first, words) && !Shows(rest, words)
    requires i < |words| && Lower(words[i]) == first + [' '] + rest && Fits(Lower(words[i]))
    ensures var f := Twice(d, Crossing(first, rest, z));
            Topical(f, words) && FirstMatchTime(f, words).None? && EveryMatchTime(f, words).None?
  {
    CrossingAlone(d, first, rest, z, words, i);
    BuiltIsMined(d, Twice(d, Crossing(first, rest, z)));
    JoinedAloneIsUndated(Twice(d, Crossing(first, rest, z)), words);
  }

  // It happens under the builtin policy: "exit" ends one sighting and "code" begins
  // the next.

  lemma FourLettersShowNothing(text: string)
    requires |text| == 4 && '-' !in text
    ensures !Shows(text, SHELL_SEMANTICS.words)
  {
    var words := SHELL_SEMANTICS.words;
    forall i | 0 <= i < |words| ensures !Contains(text, Lower(words[i])) {
      if i == 3 {
        assert Lower("-e")[0] == '-';
        LacksFirst(text, Lower("-e"));
      } else {
        assert |Lower(words[i])| > 4;
      }
    }
  }

  lemma ExitCodeKeyword()
    ensures |SHELL_SEMANTICS.words| == 6 && Lower(SHELL_SEMANTICS.words[2]) == "exit" + [' '] + "code"
    ensures Marks('#', SHELL_SEMANTICS.words) && NoSpaceKeyword(SHELL_SEMANTICS.words)
  {
  }

  lemma ExitCodeApart(d: Digest) returns (e: Event, f: Failure)
    ensures e == Event(Some(0), "", "code#", "#exit") && f == FailureOf(d, "session", [e, e]) && OneKey(d, [e, e])
    ensures Topical(f, SHELL_SEMANTICS.words)
    ensures FirstMatchTime(f, SHELL_SEMANTICS.words).None? && EveryMatchTime(f, SHELL_SEMANTICS.words).None?
  {
    var words := SHELL_SEMANTICS.words;
    e := Crossing("exit", "code", '#');
    f := Twice(d, e);
    ExitCodeKeyword();
    FourLettersShowNothing("exit");
    FourLettersShowNothing("code");
    CrossingUndated(d, "exit", "code", '#', words, 2);
  }
}
