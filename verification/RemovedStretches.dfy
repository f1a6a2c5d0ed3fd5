/** What scripts/redact-secrets.py removes, seen from the text before: which of its
    characters stand behind the markers of the result. */
module RemovedStretches {
  import opened Text
  import opened Sorting
  import opened Redaction

  /** A text in kept and removed stretches, a kept one at either end. */
  datatype Cuts = End(kept: string) | Stretch(kept: string, removed: string, rest: Cuts)

  function Original(c: Cuts): string {
    match c
    case End(kept) => kept
    case Stretch(kept, removed, rest) => kept + (removed + Original(rest))
  }

  /** One marker for each removed stretch. */
  function Shown(c: Cuts): string {
    match c
    case End(kept) => kept
    case Stretch(kept, _, rest) => kept + (MARKER + Shown(rest))
  }

  /** The n characters from position at lie in one stretch. */
  predicate Whole(c: Cuts, at: int, n: nat) {
    match c
    case End(kept) => 0 <= at && at + n <= |kept|
    case Stretch(kept, removed, rest) =>
      if at < |kept| then 0 <= at && at + n <= |kept|
      else if at < |kept| + |removed| then at + n <= |kept| + |removed|
      else Whole(rest, at - |kept| - |removed|, n)
  }

  /** ... in a removed one. */
  predicate Gone(c: Cuts, at: int, n: nat) {
    match c
    case End(_) => false
    case Stretch(kept, removed, rest) =>
      if at < |kept| + |removed| then |kept| <= at && at + n <= |kept| + |removed|
      else Gone(rest, at - |kept| - |removed|, n)
  }

  ghost predicate Lacks(text: string, word: string) { forall j :: !OccursAt(text, word, j) }

  /** Where the word first occurs. */
  function First(text: string, word: string): (r: Option<nat>)
    requires word != ""
    ensures r.None? ==> Lacks(text, word)
    ensures r.Some? ==> OccursAt(text, word, r.value) && Unmatched(text, word, r.value)
  {
    if |text| < |word| then None
    else if text[..|word|] == word then
      assert OccursAt(text, word, 0);
      Some(0)
    else
      LaterOccurs(text, word);
      match First(text[1..], word)
      case None => None
      case Some(k) => Some(k + 1)
  }

  lemma LaterOccurs(text: string, word: string)
    requires text != "" && word != "" && (|text| < |word| || text[..|word|] != word)
    ensures forall j :: OccursAt(text, word, j) <==> j > 0 && OccursAt(text[1..], word, j - 1)
  {
    assert text == text[..1] + text[1..];
    forall j: int ensures OccursAt(text, word, j) <==> j > 0 && OccursAt(text[1..], word, j - 1) {
      if j > 0 { OccursShift(text[..1], text[1..], word, j - 1); }
    }
  }

  // ---- one replacement ----

  function Cut(text: string, secret: string): Cuts
    requires secret != ""
    decreases |text|
  {
    match First(text, secret)
    case None => End(text)
    case Some(k) => Stretch(text[..k], secret, Cut(text[k + |secret|..], secret))
  }

  lemma FirstParts(text: string, secret: string, k: nat)
    requires OccursAt(text, secret, k)
    ensures text == text[..k] + (secret + text[k + |secret|..])
  {
  }

  /** The cuts are cuts of this text. */
  ghost predicate Spells(c: Cuts, text: string) { Original(c) == text }

  lemma StretchSpells(text: string, secret: string, k: nat, rest: Cuts)
    requires OccursAt(text, secret, k) && Spells(rest, text[k + |secret|..])
    ensures Spells(Stretch(text[..k], secret, rest), text)
  {
    FirstParts(text, secret, k);
  }

  lemma {:induction false} CutSpells(text: string, secret: string)
    requires secret != ""
    ensures Spells(Cut(text, secret), text)
    decreases |text|
  {
    var at := First(text, secret);
    if at.Some? {
      var rest := text[at.value + |secret|..];
      CutSpells(rest, secret);
      StretchSpells(text, secret, at.value, Cut(rest, secret));
    }
  }

  lemma ReplaceFirst(front: string, secret: string, rest: string)
    requires secret != "" && Unmatched(front + (secret + rest), secret, |front|)
    ensures Replace(front + (secret + rest), secret, MARKER) == front + (MARKER + Replace(rest, secret, MARKER))
  {
    SkipsFront(front, secret + rest, secret);
    assert (secret + rest)[..|secret|] == secret && (secret + rest)[|secret|..] == rest;
  }

  lemma NoneReplaced(text: string, secret: string)
    requires secret != "" && Lacks(text, secret)
    ensures Replace(text, secret, MARKER) == text
  {
    EmptyConcat(text);
    SkipsFront(text, "", secret);
    EmptyConcat(text + Replace("", secret, MARKER));
  }

  lemma ReplaceSplits(text: string, secret: string, k: nat)
    requires secret != "" && OccursAt(text, secret, k) && Unmatched(text, secret, k)
    ensures Replace(text, secret, MARKER) == text[..k] + (MARKER + Replace(text[k + |secret|..], secret, MARKER))
  {
    FirstParts(text, secret, k);
    ReplaceFirst(text[..k], secret, text[k + |secret|..]);
  }

  /** The cuts show this text. */
  ghost predicate Shows(c: Cuts, text: string) { Shown(c) == text }

  lemma StretchShows(front: string, secret: string, rest: Cuts, after: string)
    requires Shows(rest, after)
    ensures Shows(Stretch(front, secret, rest), front + (MARKER + after))
  {
  }

  lemma {:induction false} CutShows(text: string, secret: string)
    requires secret != ""
    ensures Shows(Cut(text, secret), Replace(text, secret, MARKER))
    decreases |text|
  {
    var at := First(text, secret);
    if at.Some? {
      var rest := text[at.value + |secret|..];
      CutShows(rest, secret);
      StretchShows(text[..at.value], secret, Cut(rest, secret), Replace(rest, secret, MARKER));
      ReplaceSplits(text, secret, at.value);
    } else {
      NoneReplaced(text, secret);
    }
  }

  // ---- replacing in what an earlier replacement left ----

  function Attach(a: Cuts, removed: string, rest: Cuts): Cuts {
    match a
    case End(kept) => Stretch(kept, removed, rest)
    case Stretch(kept, r, more) => Stretch(kept, r, Attach(more, removed, rest))
  }

  function CutAll(c: Cuts, secret: string): Cuts
    requires secret != ""
  {
    match c
    case End(kept) => Cut(kept, secret)
    case Stretch(kept, removed, rest) => Attach(Cut(kept, secret), removed, CutAll(rest, secret))
  }

  lemma {:induction false} AttachTexts(a: Cuts, removed: string, rest: Cuts)
    ensures Original(Attach(a, removed, rest)) == Original(a) + (removed + Original(rest))
    ensures Shown(Attach(a, removed, rest)) == Shown(a) + (MARKER + Shown(rest))
  {
    match a
    case End(_) =>
    case Stretch(kept, r, more) =>
      AttachTexts(more, removed, rest);
      var o, s := removed + Original(rest), MARKER + Shown(rest);
      Assoc(r, Original(more), o); Assoc(kept, r + Original(more), o);
      Assoc(MARKER, Shown(more), s); Assoc(kept, MARKER + Shown(more), s);
  }

  lemma {:induction false} CutAllOriginal(c: Cuts, secret: string)
    requires secret != ""
    ensures Original(CutAll(c, secret)) == Original(c)
  {
    CutSpells(c.kept, secret);
    match c
    case End(_) =>
    case Stretch(kept, removed, rest) =>
      CutAllOriginal(rest, secret);
      AttachTexts(Cut(kept, secret), removed, CutAll(rest, secret));
  }

  lemma MarkerUnmatched(text: string, secret: string)
    requires !Clashes(secret)
    ensures Unmatched(MARKER + text, secret, |MARKER|)
  {
    forall j | 0 <= j < |MARKER| ensures !OccursAt(MARKER + text, secret, j) {
      if OccursAt(MARKER + text, secret, j) { OverlapFollows(text, secret, j); }
    }
  }

  lemma EndsBeforeMarker(text: string, rest: string, secret: string)
    requires OccursAt(text + (MARKER + rest), secret, 0)
    ensures |secret| <= |text| || Clashes(secret)
  {
    if |secret| > |text| {
      var whole := text + (MARKER + rest);
      assert whole[0..|secret|] == secret;
      assert secret[|text|..] == whole[|text|..|secret|] == (MARKER + rest)[..|secret| - |text|];
      MarkerPrefixIsClash(rest, secret, |text|);
    }
  }

  /** A secret that does not clash is replaced on each side of a marker by itself. */
  lemma {:induction false} ReplaceAround(text: string, rest: string, secret: string)
    requires secret != "" && !Clashes(secret)
    ensures Replace(text + (MARKER + rest), secret, MARKER)
            == Replace(text, secret, MARKER) + (MARKER + Replace(rest, secret, MARKER))
    decreases |text|
  {
    var at := First(text, secret);
    if at.Some? {
      var k := at.value;
      var front, after := text[..k], text[k + |secret|..];
      FirstParts(text, secret, k);
      ReplaceAround(after, rest, secret);
      ReplaceFirst(front, secret, after);
      UnmatchedMore(front, secret, after, MARKER + rest);
      Assoc(secret, after, MARKER + rest); Assoc(front, secret + after, MARKER + rest);
      ReplaceFirst(front, secret, after + (MARKER + rest));
      var done := MARKER + Replace(rest, secret, MARKER);
      Assoc(MARKER, Replace(after, secret, MARKER), done);
      Assoc(front, MARKER + Replace(after, secret, MARKER), done);
    } else {
      NoneReplaced(text, secret);
      NoneCrosses(text, rest, secret);
      SkipsFront(text, MARKER + rest, secret);
      MarkerUnmatched(rest, secret);
      SkipsFront(MARKER, rest, secret);
    }
  }

  lemma UnmatchedMore(front: string, secret: string, after: string, more: string)
    requires secret != "" && Unmatched(front + (secret + after), secret, |front|)
    ensures Unmatched(front + (secret + (after + more)), secret, |front|)
  {
    var text := front + (secret + after);
    assert front + (secret + (after + more)) == text + more;
    forall j | 0 <= j < |front| ensures !OccursAt(text + more, secret, j) { OccursExtend(text, more, secret, j); }
  }

  lemma NoneCrosses(text: string, rest: string, secret: string)
    requires secret != "" && !Clashes(secret) && Lacks(text, secret)
    ensures Unmatched(text + (MARKER + rest), secret, |text|)
  {
    forall j | 0 <= j < |text| ensures !OccursAt(text + (MARKER + rest), secret, j) {
      if OccursAt(text + (MARKER + rest), secret, j) {
        assert text + (MARKER + rest) == text[..j] + (text[j..] + (MARKER + rest));
        OccursShift(text[..j], text[j..] + (MARKER + rest), secret, 0);
        EndsBeforeMarker(text[j..], rest, secret);
        OccursExtend(text, MARKER + rest, secret, j);
      }
    }
  }

  lemma {:induction false} CutAllShown(c: Cuts, secret: string)
    requires secret != "" && !Clashes(secret)
    ensures Shown(CutAll(c, secret)) == Replace(Shown(c), secret, MARKER)
  {
    CutShows(c.kept, secret);
    match c
    case End(_) =>
    case Stretch(kept, removed, rest) =>
      CutAllShown(rest, secret);
      AttachTexts(Cut(kept, secret), removed, CutAll(rest, secret));
      ReplaceAround(kept, Shown(rest), secret);
  }

  // ---- occurrences stay in one stretch ----

  /** No proper end of s is a proper start of t: they never overlap but as one inside
      the other. */
  predicate Apart(s: string, t: string) {
    forall i | 0 < i < |s| && |s| - i < |t| :: !IsPrefix(s[i..], t)
  }

  lemma PartlyOver(text: string, s: string, t: string, p: int, q: int)
    requires OccursAt(text, s, p) && OccursAt(text, t, q) && p < q < p + |s| < q + |t|
    ensures !Apart(s, t)
  {
    var i := q - p;
    assert text[p..p + |s|][i..] == text[q..p + |s|] == text[q..q + |t|][..|s| - i];
    assert IsPrefix(s[i..], t);
  }

  lemma OccursLater(text: string, word: string, at: int, from: nat)
    requires OccursAt(text, word, at) && from <= at
    ensures OccursAt(text[from..], word, at - from)
  {
    assert text[from..][at - from..at - from + |word|] == text[at..at + |word|];
  }

  /** Of words no longer than the secret and apart from it, cutting the secret out
      splits no occurrence. */
  lemma {:induction false} CutKeepsWhole(text: string, secret: string, word: string, at: int)
    requires secret != "" && 0 < |word| <= |secret| && Apart(secret, word) && Apart(word, secret)
    requires OccursAt(text, word, at)
    ensures Whole(Cut(text, secret), at, |word|)
    decreases |text|
  {
    var k := First(text, secret);
    if k.Some? {
      var end := k.value + |secret|;
      if at < k.value && k.value < at + |word| {
        if at + |word| < end { PartlyOver(text, word, secret, at, k.value); }
      } else if at >= end {
        OccursLater(text, word, at, end);
        CutKeepsWhole(text[end..], secret, word, at - end);
      } else if k.value < at && end < at + |word| {
        PartlyOver(text, secret, word, k.value, at);
      }
    }
  }

  lemma {:induction false} CutRemoves(text: string, secret: string, at: int)
    requires secret != "" && Apart(secret, secret) && OccursAt(text, secret, at)
    ensures Gone(Cut(text, secret), at, |secret|)
    decreases |text|
  {
    var k := First(text, secret).value;
    var end := k + |secret|;
    assert at >= k;
    if at >= end {
      OccursLater(text, secret, at, end);
      CutRemoves(text[end..], secret, at - end);
    } else if at > k {
      PartlyOver(text, secret, secret, k, at);
    }
  }

  lemma {:induction false} AttachPlaces(a: Cuts, removed: string, rest: Cuts, at: int, n: nat)
    requires n > 0
    ensures var len := |Original(a)|;
            && (at < len && Whole(a, at, n) ==> Whole(Attach(a, removed, rest), at, n))
            && (at < len && Gone(a, at, n) ==> Gone(Attach(a, removed, rest), at, n))
            && (len <= at && at + n <= len + |removed| ==> Gone(Attach(a, removed, rest), at, n))
            && (len + |removed| <= at && Whole(rest, at - len - |removed|, n) ==>
              Whole(Attach(a, removed, rest), at, n))
            && (len + |removed| <= at && Gone(rest, at - len - |removed|, n) ==> Gone(Attach(a, removed, rest), at, n))
  {
    match a
    case End(_) =>
    case Stretch(kept, r, more) => AttachPlaces(more, removed, rest, at - |kept| - |r|, n);
  }

  lemma {:induction false} GoneIsWhole(c: Cuts, at: int, n: nat)
    requires n > 0 && Gone(c, at, n)
    ensures Whole(c, at, n)
  {
    match c
    case End(_) =>
    case Stretch(kept, removed, rest) =>
      if at >= |kept| + |removed| { GoneIsWhole(rest, at - |kept| - |removed|, n); }
  }

  /** An occurrence that begins in the kept front and stays in it. */
  lemma OccursInFront(kept: string, more: string, word: string, at: int)
    requires OccursAt(kept + more, word, at) && at + |word| <= |kept|
    ensures OccursAt(kept, word, at)
  {
    OccursExtend(kept, more, word, at);
  }

  lemma OccursInRest(kept: string, removed: string, rest: string, word: string, at: int)
    requires OccursAt(kept + (removed + rest), word, at) && at >= |kept| + |removed|
    ensures OccursAt(rest, word, at - |kept| - |removed|)
  {
    OccursLater(kept + (removed + rest), word, at, |kept| + |removed|);
    assert (kept + (removed + rest))[|kept| + |removed|..] == rest;
  }

  lemma {:induction false} CutAllKeepsWhole(c: Cuts, secret: string, word: string, at: int)
    requires secret != "" && 0 < |word| <= |secret| && Apart(secret, word) && Apart(word, secret)
    requires OccursAt(Original(c), word, at) && Whole(c, at, |word|)
    ensures Whole(CutAll(c, secret), at, |word|)
  {
    match c
    case End(kept) => CutKeepsWhole(kept, secret, word, at);
    case Stretch(kept, removed, rest) =>
      CutSpells(kept, secret);
      AttachPlaces(Cut(kept, secret), removed, CutAll(rest, secret), at, |word|);
      if at < |kept| {
        OccursInFront(kept, removed + Original(rest), word, at);
        CutKeepsWhole(kept, secret, word, at);
      } else if at >= |kept| + |removed| {
        OccursInRest(kept, removed, Original(rest), word, at);
        CutAllKeepsWhole(rest, secret, word, at - |kept| - |removed|);
      } else {
        GoneIsWhole(CutAll(c, secret), at, |word|);
      }
  }

  lemma {:induction false} CutAllRemoves(c: Cuts, secret: string, at: int)
    requires secret != "" && Apart(secret, secret)
    requires OccursAt(Original(c), secret, at) && Whole(c, at, |secret|)
    ensures Gone(CutAll(c, secret), at, |secret|)
  {
    match c
    case End(kept) => CutRemoves(kept, secret, at);
    case Stretch(kept, removed, rest) =>
      CutSpells(kept, secret);
      AttachPlaces(Cut(kept, secret), removed, CutAll(rest, secret), at, |secret|);
      if at < |kept| {
        OccursInFront(kept, removed + Original(rest), secret, at);
        CutRemoves(kept, secret, at);
      } else if at >= |kept| + |removed| {
        OccursInRest(kept, removed, Original(rest), secret, at);
        CutAllRemoves(rest, secret, at - |kept| - |removed|);
      }
  }

  lemma {:induction false} CutAllKeepsGone(c: Cuts, secret: string, at: int, n: nat)
    requires secret != "" && n > 0 && Gone(c, at, n)
    ensures Gone(CutAll(c, secret), at, n)
  {
    match c
    case End(_) =>
    case Stretch(kept, removed, rest) =>
      CutSpells(kept, secret);
      AttachPlaces(Cut(kept, secret), removed, CutAll(rest, secret), at, n);
      if at >= |kept| + |removed| { CutAllKeepsGone(rest, secret, at - |kept| - |removed|, n); }
  }

  // ---- the whole loop ----

  function CutInTurn(c: Cuts, order: seq<string>): Cuts
    requires "" !in order
    decreases |order|
  {
    if order == [] then c else CutInTurn(CutAll(c, order[0]), order[1..])
  }

  lemma {:induction false} CutInTurnTexts(c: Cuts, order: seq<string>)
    requires "" !in order && forall s | s in order :: !Clashes(s)
    ensures Original(CutInTurn(c, order)) == Original(c)
    ensures Shown(CutInTurn(c, order)) == RedactAll(Shown(c), order)
    decreases |order|
  {
    if order != [] {
      CutAllOriginal(c, order[0]);
      CutAllShown(c, order[0]);
      CutInTurnTexts(CutAll(c, order[0]), order[1..]);
    }
  }

  lemma {:induction false} StaysGone(c: Cuts, order: seq<string>, at: int, n: nat)
    requires "" !in order && n > 0 && Gone(c, at, n)
    ensures Gone(CutInTurn(c, order), at, n)
    decreases |order|
  {
    if order != [] {
      CutAllKeepsGone(c, order[0], at, n);
      StaysGone(CutAll(c, order[0]), order[1..], at, n);
    }
  }

  ghost predicate Falling(order: seq<string>) { forall i, j | 0 <= i < j < |order| :: |order[j]| <= |order[i]| }

  ghost predicate AllApart(order: seq<string>) { forall s, t | s in order && t in order :: Apart(s, t) }

  lemma {:induction false} TurnComes(c: Cuts, order: seq<string>, secret: string, at: int)
    requires "" !in order && Falling(order) && AllApart(order) && secret in order
    requires OccursAt(Original(c), secret, at) && Whole(c, at, |secret|)
    ensures Gone(CutInTurn(c, order), at, |secret|)
    decreases |order|
  {
    if order[0] == secret {
      CutAllRemoves(c, secret, at);
      StaysGone(CutAll(c, secret), order[1..], at, |secret|);
    } else {
      CutAllOriginal(c, order[0]);
      CutAllKeepsWhole(c, order[0], secret, at);
      TurnComes(CutAll(c, order[0]), order[1..], secret, at);
    }
  }

  /** Not only does no secret occur in the result: nothing of any occurrence is left.
      If no secret can run into the marker, and no proper end of one is a proper start
      of one, then the result is the text with some stretches replaced by one marker
      each, and every occurrence of every secret lies wholly in one of them. */
  lemma NothingIsLeft(text: string, order: seq<string>, secrets: set<string>)
    requires LongestFirst(order, secrets) && "" !in order
    requires forall s | s in secrets :: !Clashes(s)
    requires forall s, t | s in secrets && t in secrets :: Apart(s, t)
    ensures var c := CutInTurn(End(text), order);
            && Original(c) == text && Shown(c) == RedactAll(text, order)
            && forall s, at | s in secrets && OccursAt(text, s, at) :: Gone(c, at, |s|)
  {
    CutInTurnTexts(End(text), order);
    forall s, at | s in secrets && OccursAt(text, s, at) ensures Gone(CutInTurn(End(text), order), at, |s|) {
      TurnComes(End(text), order, s, at);
    }
  }

  // ---- when secrets overlap ----

  ghost predicate AlwaysGone(secret: string)
    requires secret != ""
  {
    forall text, at | OccursAt(text, secret, at) :: Gone(CutInTurn(End(text), [secret]), at, |secret|)
  }

  /** For one secret the condition is exact. */
  lemma OneSecretGoneIff(secret: string)
    requires secret != ""
    ensures AlwaysGone(secret) <==> Apart(secret, secret)
  {
    if Apart(secret, secret) {
      forall text, at | OccursAt(text, secret, at) ensures Gone(CutInTurn(End(text), [secret]), at, |secret|) {
        TurnComes(End(text), [secret], secret, at);
      }
    } else {
      var i :| 0 < i < |secret| && |secret| - i < |secret| && IsPrefix(secret[i..], secret);
      var text := secret[..i] + secret;
      assert text[..|secret|] == secret && text[i..i + |secret|] == secret;
      assert OccursAt(text, secret, 0) && OccursAt(text, secret, i);
      assert [secret][1..] == [];
      assert First(text, secret) == Some(0);
      var c := Cut(text, secret);
      assert c.Stretch? && c.kept == "" && c.removed == secret && !Gone(c, i, |secret|);
      assert CutInTurn(End(text), [secret]) == c;
    }
  }

  lemma Absent(text: string, secret: string, k: nat)
    requires k < |secret| && secret[k] !in text
    ensures Replace(text, secret, MARKER) == text
  {
    forall j ensures !OccursAt(text, secret, j) {
      if OccursAt(text, secret, j) { CharOccurs(text, secret, j, k); }
    }
    NoneReplaced(text, secret);
  }

  lemma CharOccurs(text: string, word: string, at: int, k: nat)
    requires OccursAt(text, word, at) && k < |word|
    ensures word[k] in text
  {
    assert text[at + k] == text[at..at + |word|][k];
  }

  lemma TwoTurns(text: string, s: string, t: string)
    requires s != "" && t != ""
    ensures RedactAll(text, [s, t]) == Replace(Replace(text, s, MARKER), t, MARKER)
  {
    assert [s, t][1..] == [t];
    OneSecret(Replace(text, s, MARKER), t);
  }

  lemma LeavesBack(s: string, t: string, back: string)
    requires 0 < |back| < |s| && t != "" && t[0] !in MARKER + back
    ensures RedactAll(s + back, [s, t]) == MARKER + back
  {
    TwoTurns(s + back, s, t);
    ReplaceFront(s, back);
    Absent(MARKER + back, t, 0);
  }

  lemma LeavesFront(front: string, s: string, t: string, k: nat)
    requires s != "" && t != "" && t[0] !in front && k < |s| && s[k] !in front + MARKER
    ensures RedactAll(front + t, [t, s]) == front + MARKER
  {
    TwoTurns(front + t, t, s);
    forall j | 0 <= j < |front| ensures !OccursAt(front + t, t, j) {
      if OccursAt(front + t, t, j) { FirstAt(front + t, t, j); }
    }
    SkipsFront(front, t, t);
    ReplaceFront(t, "");
    EmptyConcat(t); EmptyConcat(MARKER);
    Absent(front + MARKER, s, k);
  }

  lemma FirstAt(text: string, word: string, at: int)
    requires OccursAt(text, word, at) && word != ""
    ensures text[at] == word[0]
  {
    assert text[at] == text[at..at + |word|][0];
  }

  lemma Overlapping(s: string, t: string, back: string, front: string)
    requires |s| == |t| && s != t && s + back == front + t
    ensures LongestFirst([s, t], {s, t}) && LongestFirst([t, s], {s, t})
    ensures OccursAt(s + back, s, 0) && OccursAt(s + back, t, |front|)
  {
    assert (s + back)[0..|s|] == s && (front + t)[|front|..|front| + |t|] == t;
  }

  lemma Alphabet()
    ensures "abcdefgh" + "ijkl" == "abcdefghijkl" == "abcd" + "efghijkl"
    ensures MARKER + "ijkl" == "[REDACTED]ijkl" && "abcd" + MARKER == "abcd[REDACTED]"
    ensures 'e' !in "abcd" && 'e' !in "[REDACTED]ijkl" && 'e' !in "abcd[REDACTED]"
  {
  }

  /** Two secrets of one length that overlap in a text: the end of one or the start of
      the other is left standing, whichever comes first. */
  lemma OverlappingSecretsLeave()
    ensures var s, t, text := "abcdefgh", "efghijkl", "abcdefghijkl";
            && LongestFirst([s, t], {s, t}) && LongestFirst([t, s], {s, t})
            && OccursAt(text, s, 0) && OccursAt(text, t, 4)
            && RedactAll(text, [s, t]) == "[REDACTED]ijkl" && RedactAll(text, [t, s]) == "abcd[REDACTED]"
  {
    var s, t, text := "abcdefgh", "efghijkl", "abcdefghijkl";
    Alphabet();
    Overlapping(s, t, "ijkl", "abcd");
    LeavesBack(s, t, "ijkl");
    LeavesFront("abcd", s, t, 4);
  }
}
