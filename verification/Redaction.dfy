/** scripts/redact-secrets.py: the replacement loop over the collected secrets. */
module Redaction {
  import opened Text
  import opened Sorting

  const MARKER := "[REDACTED]"

  /** The end of the marker, with or without text behind it, can spell the secret. */
  predicate FollowsMarker(secret: string) {
    exists k | 0 <= k < |MARKER| :: IsPrefix(MARKER[k..], secret) || IsPrefix(secret, MARKER[k..])
  }

  /** A secret that can run into the marker: they share an end, or one lies inside
      the other. */
  predicate Clashes(secret: string) {
    || FollowsMarker(secret)
    || exists k | 0 <= k < |secret| :: IsPrefix(secret[k..], MARKER) || IsPrefix(MARKER, secret[k..])
  }

  // ---- one replacement ----

  lemma OverlapFollows(text: string, secret: string, at: nat)
    requires OccursAt(MARKER + text, secret, at)
    ensures at < |MARKER| ==> FollowsMarker(secret)
  {
    if at < |MARKER| {
      var tail := MARKER[at..];
      assert (MARKER + text)[at..at + |secret|] == (tail + text)[..|secret|];
      if |secret| <= |tail| {
        assert secret == tail[..|secret|];
        assert IsPrefix(secret, MARKER[at..]);
      } else {
        assert secret[..|tail|] == tail;
        assert IsPrefix(MARKER[at..], secret);
      }
    }
  }

  /** Nothing that the end of the marker cannot spell can overlap it from there. */
  lemma BehindMarker(text: string, secret: string)
    requires Contains(MARKER + text, secret) && !FollowsMarker(secret)
    ensures Contains(text, secret)
  {
    var r := MARKER + text;
    var at :| 0 <= at <= |r| - |secret| && OccursAt(r, secret, at);
    OverlapFollows(text, secret, at);
    assert text[at - |MARKER|..at - |MARKER| + |secret|] == r[at..at + |secret|];
    assert OccursAt(text, secret, at - |MARKER|);
  }

  lemma MarkerPrefixIsClash(text: string, secret: string, k: nat)
    requires k < |secret| && IsPrefix(secret[k..], MARKER + text)
    ensures Clashes(secret)
  {
    var v, r := secret[k..], MARKER + text;
    if |v| <= |MARKER| {
      assert r[..|v|] == MARKER[..|v|];
      assert IsPrefix(secret[k..], MARKER);
    } else {
      assert r[..|v|][..|MARKER|] == MARKER;
      assert IsPrefix(MARKER, secret[k..]);
    }
  }

  lemma FrontIsNoMarker(text: string, word: string, secret: string, k: nat)
    requires word != "" && k < |secret| && |text| >= |word|
    requires IsPrefix(secret[k..], Replace(text, word, MARKER))
    ensures text[..|word|] == word ==> Clashes(secret)
  {
    if text[..|word|] == word { MarkerPrefixIsClash(Replace(text[|word|..], word, MARKER), secret, k); }
  }

  /** A suffix of such a secret at the front of the result was there before. */
  lemma {:induction false} SuffixWasThere(text: string, word: string, secret: string, k: nat)
    requires word != "" && !Clashes(secret) && k <= |secret|
    requires IsPrefix(secret[k..], Replace(text, word, MARKER))
    ensures IsPrefix(secret[k..], text)
    decreases |text|
  {
    if k < |secret| && |text| >= |word| {
      var v := secret[k..];
      FrontIsNoMarker(text, word, secret, k);
      var rest := Replace(text[1..], word, MARKER);
      assert secret[k + 1..] == v[1..];
      assert ([text[0]] + rest)[..|v|] == v;
      assert rest[..|v| - 1] == v[1..];
      SuffixWasThere(text[1..], word, secret, k + 1);
      assert v == [v[0]] + v[1..] && text == [text[0]] + text[1..];
      assert text[..|v|] == v;
    }
  }

  /** Replacing any word never creates a secret that does not clash. */
  lemma {:induction false} NoneCreated(text: string, word: string, secret: string)
    requires word != "" && secret != "" && !Clashes(secret)
    requires Contains(Replace(text, word, MARKER), secret)
    ensures Contains(text, secret)
    decreases |text|
  {
    if |text| >= |word| {
      if text[..|word|] == word {
        BehindMarker(Replace(text[|word|..], word, MARKER), secret);
        NoneCreated(text[|word|..], word, secret);
        ContainsMore(word, text[|word|..], secret);
        assert text == word + text[|word|..];
      } else {
        var rest := Replace(text[1..], word, MARKER);
        ContainsCons(text[0], rest, secret);
        if Contains(rest, secret) {
          NoneCreated(text[1..], word, secret);
          ContainsMore([text[0]], text[1..], secret);
          assert text == [text[0]] + text[1..];
        } else {
          NoneCreatedHere(text, word, secret);
        }
      }
    }
  }

  lemma NoneCreatedHere(text: string, word: string, secret: string)
    requires word != "" && secret != "" && !Clashes(secret)
    requires IsPrefix(secret, Replace(text, word, MARKER))
    ensures Contains(text, secret)
  {
    assert secret[0..] == secret;
    SuffixWasThere(text, word, secret, 0);
    assert OccursAt(text, secret, 0);
  }

  /** Replacing such a secret leaves none of it. */
  lemma {:induction false} NoneLeft(text: string, secret: string)
    requires secret != "" && !Clashes(secret)
    ensures !Contains(Replace(text, secret, MARKER), secret)
    decreases |text|
  {
    var r := Replace(text, secret, MARKER);
    if |text| >= |secret| {
      if text[..|secret|] == secret {
        var rest := Replace(text[|secret|..], secret, MARKER);
        NoneLeft(text[|secret|..], secret);
        if Contains(r, secret) { BehindMarker(rest, secret); }
      } else {
        var rest := Replace(text[1..], secret, MARKER);
        NoneLeft(text[1..], secret);
        if Contains(r, secret) {
          ContainsCons(text[0], rest, secret);
          assert secret[0..] == secret;
          SuffixWasThere(text, secret, secret, 0);
        }
      }
    }
  }

  // ---- the loop ----

  /** A listing of the secrets from the longest to the shortest, as sorted() with
      key=len and reverse gives it for some order of the set. */
  ghost predicate LongestFirst(order: seq<string>, secrets: set<string>) {
    && (forall s :: s in order <==> s in secrets)
    && (forall i, j | 0 <= i < j < |order| :: order[i] != order[j] && |order[i]| >= |order[j]|)
  }

  function RedactAll(text: string, order: seq<string>): string
    requires "" !in order
    decreases order
  {
    if order == [] then text else RedactAll(Replace(text, order[0], MARKER), order[1..])
  }

  lemma {:induction false} LongestExists(secrets: set<string>)
    requires secrets != {}
    ensures exists s :: s in secrets && forall t | t in secrets :: |t| <= |s|
  {
    var s :| s in secrets;
    if secrets == {s} {
      assert forall t | t in secrets :: |t| <= |s|;
    } else {
      LongestExists(secrets - {s});
      var m :| m in secrets - {s} && forall t | t in secrets - {s} :: |t| <= |m|;
      var best := if |s| > |m| then s else m;
      assert best in secrets && forall t | t in secrets :: t == s || t in secrets - {s};
    }
  }

  lemma {:induction false} NothingToReplace(text: string, word: string)
    requires word != "" && !Contains(text, word)
    ensures Replace(text, word, MARKER) == text
    decreases |text|
  {
    if |text| >= |word| {
      assert !OccursAt(text, word, 0);
      TailContains(text, word);
      NothingToReplace(text[1..], word);
    }
  }

  lemma TailContains(text: string, word: string)
    requires text != ""
    ensures Contains(text[1..], word) ==> Contains(text, word)
  {
    if Contains(text[1..], word) {
      ContainsMore([text[0]], text[1..], word);
      assert text == [text[0]] + text[1..];
    }
  }

  lemma {:induction false} RedactMore(text: string, order: seq<string>, secret: string)
    requires "" !in order && secret != ""
    ensures RedactAll(text, order + [secret]) == Replace(RedactAll(text, order), secret, MARKER)
    decreases order
  {
    if order != [] {
      assert (order + [secret])[1..] == order[1..] + [secret];
      RedactMore(Replace(text, order[0], MARKER), order[1..], secret);
    } else {
      assert [] + [secret] == [secret];
    }
  }

  lemma NextLongest(order: seq<string>, secrets: set<string>, rest: set<string>, secret: string)
    requires LongestFirst(order, secrets - rest) && rest <= secrets && secret in rest
    requires forall s, t | s in order && t in rest :: |t| <= |s|
    requires forall t | t in rest :: |t| <= |secret|
    ensures LongestFirst(order + [secret], secrets - (rest - {secret}))
    ensures forall s, t | s in order + [secret] && t in rest - {secret} :: |t| <= |s|
  {
    forall i | 0 <= i < |order| ensures order[i] != secret && |order[i]| >= |secret| {
      assert order[i] in order;
    }
  }

  method Redact(text: string, secrets: set<string>) returns (r: string)
    requires "" !in secrets
    ensures exists order :: LongestFirst(order, secrets) && "" !in order && r == RedactAll(text, order)
  {
    ghost var order: seq<string> := [];
    var rest := secrets;
    r := text;
    while rest != {}
      invariant LongestFirst(order, secrets - rest) && rest <= secrets
      invariant forall s, t | s in order && t in rest :: |t| <= |s|
      invariant "" !in order && r == RedactAll(text, order)
    {
      LongestExists(rest);
      var secret :| secret in rest && forall t | t in rest :: |t| <= |secret|;
      RedactMore(text, order, secret);
      NextLongest(order, secrets, rest, secret);
      if Contains(r, secret) {
        r := Replace(r, secret, MARKER);
      } else {
        NothingToReplace(r, secret);
      }
      rest := rest - {secret};
      order := order + [secret];
    }
    assert secrets - rest == secrets;
  }

  // ---- completeness ----

  /** If no secret can run into the marker, none is left, whatever the text. */
  lemma {:induction false} NoSecretSurvives(text: string, order: seq<string>, secret: string)
    requires "" !in order && (forall s | s in order :: !Clashes(s))
    requires secret in order
    ensures !Contains(RedactAll(text, order), secret)
    decreases order
  {
    if order[0] == secret {
      NoneLeft(text, secret);
      StaysAway(Replace(text, secret, MARKER), order[1..], secret);
    } else {
      assert secret in order[1..];
      NoSecretSurvives(Replace(text, order[0], MARKER), order[1..], secret);
    }
  }

  lemma {:induction false} StaysAway(text: string, order: seq<string>, secret: string)
    requires "" !in order && secret != "" && !Clashes(secret) && !Contains(text, secret)
    ensures !Contains(RedactAll(text, order), secret)
    decreases order
  {
    if order != [] {
      if Contains(Replace(text, order[0], MARKER), secret) { NoneCreated(text, order[0], secret); }
      StaysAway(Replace(text, order[0], MARKER), order[1..], secret);
    }
  }

  // ---- when exactly redaction is complete ----

  predicate IsBracketed(secret: string) { '[' in secret || ']' in secret }

  lemma ClashNeedsBracket(secret: string)
    requires secret != "" && Clashes(secret)
    ensures IsBracketed(secret) || Contains("REDACTED", secret)
  {
    if k :| 0 <= k < |secret| && (IsPrefix(secret[k..], MARKER) || IsPrefix(MARKER, secret[k..])) {
      SharedFront(secret, k);
    } else {
      var j :| 0 <= j < |MARKER| && (IsPrefix(MARKER[j..], secret) || IsPrefix(secret, MARKER[j..]));
      InsideWord(secret, j);
    }
  }

  lemma SharedFront(secret: string, k: nat)
    requires k < |secret| && (IsPrefix(secret[k..], MARKER) || IsPrefix(MARKER, secret[k..]))
    ensures IsBracketed(secret)
  {
    assert secret[k..][0] == MARKER[0] == '[';
    assert secret[k] in secret;
  }

  lemma InsideWord(secret: string, j: nat)
    requires secret != "" && j < |MARKER|
    requires IsPrefix(MARKER[j..], secret) || IsPrefix(secret, MARKER[j..])
    ensures IsBracketed(secret) || Contains("REDACTED", secret)
  {
    var tail := MARKER[j..];
    if |secret| >= |tail| {
      assert secret[..|tail|] == tail && tail[|tail| - 1] == ']';
      assert secret[|tail| - 1] in secret;
    } else {
      assert secret == MARKER[j..j + |secret|];
      if j == 0 {
        assert MARKER[0] == secret[0] && secret[0] in secret;
      } else {
        assert "REDACTED"[j - 1..j - 1 + |secret|] == MARKER[j..j + |secret|];
        assert OccursAt("REDACTED", secret, j - 1);
      }
    }
  }

  lemma {:induction false} ReplacementShows(text: string, word: string)
    requires word != "" && Contains(text, word)
    ensures Contains(Replace(text, word, MARKER), MARKER)
    decreases |text|
  {
    if text[..|word|] == word {
      var rest := Replace(text[|word|..], word, MARKER);
      assert OccursAt(MARKER + rest, MARKER, 0);
    } else {
      assert text == [text[0]] + text[1..];
      ContainsCons(text[0], text[1..], word);
      ReplacementShows(text[1..], word);
      ContainsMore([text[0]], Replace(text[1..], word, MARKER), MARKER);
    }
  }

  lemma {:induction false} MarkerStays(text: string, order: seq<string>)
    requires "" !in order && Contains(text, MARKER)
    ensures Contains(RedactAll(text, order), MARKER)
    decreases order
  {
    if order != [] {
      if Contains(text, order[0]) { ReplacementShows(text, order[0]); } else { NothingToReplace(text, order[0]); }
      MarkerStays(Replace(text, order[0], MARKER), order[1..]);
    }
  }

  lemma OnlyShorterInside(text: string, word: string)
    ensures Contains(text, word) ==> |word| < |text| || word == text
  {
    if Contains(text, word) && |word| >= |text| {
      assert OccursAt(text, word, 0) && text[0..|word|] == text;
    }
  }

  lemma WholeIsReplaced(secret: string)
    requires secret != ""
    ensures Replace(secret, secret, MARKER) == MARKER
  {
    assert secret[..|secret|] == secret && secret[|secret|..] == "";
    assert Replace("", secret, MARKER) == "";
  }

  lemma {:induction false} ReachesMarker(order: seq<string>, secrets: set<string>, secret: string)
    returns (rest: seq<string>)
    requires LongestFirst(order, secrets) && "" !in order && secret in order
    ensures "" !in rest && (forall s | s in rest :: s in order)
    ensures RedactAll(secret, order) == RedactAll(MARKER, rest)
    decreases order
  {
    if order[0] == secret {
      rest := order[1..];
      WholeIsReplaced(secret);
    } else {
      assert secret in order[1..];
      OnlyShorterInside(secret, order[0]);
      NothingToReplace(secret, order[0]);
      var others := set s | s in order[1..];
      assert LongestFirst(order[1..], others);
      rest := ReachesMarker(order[1..], others, secret);
      assert RedactAll(secret, order) == RedactAll(secret, order[1..]);
    }
  }

  lemma {:induction false} MarkerUntouched(order: seq<string>)
    requires "" !in order && forall s | s in order :: !Contains(MARKER, s)
    ensures RedactAll(MARKER, order) == MARKER
    decreases order
  {
    if order != [] {
      NothingToReplace(MARKER, order[0]);
      MarkerUntouched(order[1..]);
    }
  }

  lemma InsideClashes(secret: string)
    requires secret != "" && Contains(MARKER, secret)
    ensures Clashes(secret)
  {
    var at :| 0 <= at <= |MARKER| - |secret| && OccursAt(MARKER, secret, at);
    assert MARKER[at..][..|secret|] == secret;
    assert IsPrefix(secret, MARKER[at..]);
  }

  /** A text that is one secret becomes exactly the marker: going from the longest
      to the shortest, no shorter secret breaks it up first. */
  lemma WholeSecretVanishes(order: seq<string>, secrets: set<string>, secret: string)
    requires LongestFirst(order, secrets) && "" !in order && secret in secrets
    requires forall s | s in order :: !Clashes(s)
    ensures RedactAll(secret, order) == MARKER
  {
    var rest := ReachesMarker(order, secrets, secret);
    forall s | s in rest ensures !Contains(MARKER, s) {
      if Contains(MARKER, s) { InsideClashes(s); }
    }
    MarkerUntouched(rest);
  }

  /** From the shortest to the longest, the rest of a longer secret that starts
      with a shorter one is left standing. */
  lemma ShortestFirstLeaks(head: string, tail: string)
    requires head != "" && !Contains(tail, head) && !Clashes(head + tail)
    ensures RedactAll(head + tail, [head, head + tail]) == MARKER + tail
  {
    var text := head + tail;
    assert text[..|head|] == head && text[|head|..] == tail;
    NothingToReplace(tail, head);
    OnlyShorterInside(tail, text);
    assert |text| > |tail|;
    if Contains(MARKER + tail, text) { BehindMarker(tail, text); }
    NothingToReplace(MARKER + tail, text);
    assert [head, text][1..] == [text];
    OneSecret(MARKER + tail, text);
  }

  lemma OneSecret(text: string, secret: string)
    requires secret != ""
    ensures RedactAll(text, [secret]) == Replace(text, secret, MARKER)
  {
    assert [secret][1..] == [];
  }

  /** A secret that lies inside the marker survives in the text that is that secret. */
  lemma InsideMarkerSurvives(order: seq<string>, secrets: set<string>, secret: string)
    requires LongestFirst(order, secrets) && "" !in order && secret in secrets && Contains(MARKER, secret)
    ensures Contains(RedactAll(secret, order), secret)
  {
    var rest := ReachesMarker(order, secrets, secret);
    assert OccursAt(MARKER, MARKER, 0);
    MarkerStays(MARKER, rest);
    ContainsInside(RedactAll(MARKER, rest), MARKER, secret);
  }

  ghost predicate AlwaysComplete(order: seq<string>, secrets: set<string>)
    requires "" !in order
  {
    forall text, s :: s in secrets ==> !Contains(RedactAll(text, order), s)
  }

  /** For secrets without brackets: no text leaks any of them if and only if none
      lies inside the word REDACTED. */
  lemma CompleteExactlyWhen(order: seq<string>, secrets: set<string>)
    requires LongestFirst(order, secrets) && "" !in order
    requires forall s | s in secrets :: !IsBracketed(s)
    ensures AlwaysComplete(order, secrets) <==> forall s | s in secrets :: !Contains("REDACTED", s)
  {
    assert OccursAt(MARKER, "REDACTED", 1);
    forall s | s in secrets ensures Clashes(s) ==> Contains("REDACTED", s) {
      assert s in order;
      if Clashes(s) { ClashNeedsBracket(s); }
    }
    if forall s | s in secrets :: !Contains("REDACTED", s) {
      forall text, s | s in secrets ensures !Contains(RedactAll(text, order), s) { NoSecretSurvives(text, order, s); }
    } else {
      var s :| s in secrets && Contains("REDACTED", s);
      ContainsInside(MARKER, "REDACTED", s);
      InsideMarkerSurvives(order, secrets, s);
    }
  }

  // ---- one secret, brackets or not ----

  /** The secret's first i characters, put in front of it, are not swallowed by an
      earlier occurrence, and the marker that follows them completes the secret. */
  predicate RunsInto(secret: string, i: int) {
    && 0 < i < |secret| && (IsPrefix(secret[i..], MARKER) || IsPrefix(MARKER, secret[i..]))
    && Unmatched(secret[..i] + secret, secret, i)
  }

  /** The secret occurs nowhere before position k. */
  predicate Unmatched(text: string, secret: string, k: int) {
    forall j | 0 <= j < k :: !OccursAt(text, secret, j)
  }

  predicate RunsIntoMarker(secret: string) { exists i | 0 < i < |secret| :: RunsInto(secret, i) }

  lemma ReplaceStep(text: string, secret: string)
    requires secret != "" && text != "" && !OccursAt(text, secret, 0)
    ensures Replace(text, secret, MARKER) == [text[0]] + Replace(text[1..], secret, MARKER)
  {
    if |text| < |secret| {
      assert Replace(text[1..], secret, MARKER) == text[1..];
      assert text == [text[0]] + text[1..];
    }
  }

  lemma OccursShift(front: string, text: string, word: string, j: nat)
    ensures OccursAt(front + text, word, |front| + j) <==> OccursAt(text, word, j)
  {
    if j + |word| <= |text| {
      assert (front + text)[|front| + j..|front| + j + |word|] == text[j..j + |word|];
    }
  }

  lemma OccursExtend(text: string, rest: string, word: string, j: nat)
    requires j + |word| <= |text|
    ensures OccursAt(text + rest, word, j) <==> OccursAt(text, word, j)
  {
    assert (text + rest)[j..j + |word|] == text[j..j + |word|];
  }

  lemma UnmatchedTail(front: string, text: string, secret: string)
    requires front != "" && Unmatched(front + text, secret, |front|)
    ensures Unmatched(front[1..] + text, secret, |front| - 1) && !OccursAt(front + text, secret, 0)
  {
    assert front + text == front[..1] + (front[1..] + text);
    forall j | 0 <= j < |front| - 1 ensures !OccursAt(front[1..] + text, secret, j) {
      assert !OccursAt(front + text, secret, j + 1);
      OccursShift(front[..1], front[1..] + text, secret, j);
    }
  }

  /** Replacing passes over a front in which the secret does not start. */
  lemma {:induction false} SkipsFront(front: string, text: string, secret: string)
    requires secret != "" && Unmatched(front + text, secret, |front|)
    ensures Replace(front + text, secret, MARKER) == front + Replace(text, secret, MARKER)
    decreases |front|
  {
    if front == "" {
      assert front + text == text;
    } else {
      UnmatchedTail(front, text, secret);
      SkipsFront(front[1..], text, secret);
      SkipOne(front, text, secret, Replace(text, secret, MARKER));
    }
  }

  lemma SkipOne(front: string, text: string, secret: string, replaced: string)
    requires secret != "" && front != "" && !OccursAt(front + text, secret, 0)
    requires Replace(front[1..] + text, secret, MARKER) == front[1..] + replaced
    ensures Replace(front + text, secret, MARKER) == front + replaced
  {
    ConcatHead(front, text);
    ReplaceStep(front + text, secret);
    Assoc([front[0]], front[1..], replaced);
    assert [front[0]] + front[1..] == front;
  }

  lemma ReplaceFront(secret: string, rest: string)
    requires secret != "" && |rest| < |secret|
    ensures Replace(secret + rest, secret, MARKER) == MARKER + rest
  {
    assert (secret + rest)[..|secret|] == secret && (secret + rest)[|secret|..] == rest;
    assert Replace(rest, secret, MARKER) == rest;
  }

  lemma PrefixOfTail(text: string, k: nat, word: string)
    requires k <= |text| && IsPrefix(word, text[k..])
    ensures Contains(text, word)
  {
    assert text[k..k + |word|] == text[k..][..|word|];
    assert OccursAt(text, word, k);
  }

  ghost predicate Leaks(secret: string)
    requires secret != ""
  {
    exists text :: Contains(Replace(text, secret, MARKER), secret)
  }

  lemma FollowingLeaks(secret: string)
    requires secret != "" && FollowsMarker(secret)
    ensures Leaks(secret)
  {
    var k :| 0 <= k < |MARKER| && (IsPrefix(MARKER[k..], secret) || IsPrefix(secret, MARKER[k..]));
    var shared := MARKER[k..];
    var rest := if IsPrefix(shared, secret) then secret[|shared|..] else "";
    ReplaceFront(secret, rest);
    assert (MARKER + rest)[k..] == shared + rest;
    assert IsPrefix(secret, shared + rest);
    PrefixOfTail(MARKER + rest, k, secret);
    assert Contains(Replace(secret + rest, secret, MARKER), secret);
  }

  /** Occurrences that start before k do not depend on what follows the next one. */
  lemma UnmatchedExtend(text: string, rest: string, secret: string, k: nat)
    requires |text| == k + |secret|
    ensures Unmatched(text + rest, secret, k) <==> Unmatched(text, secret, k)
  {
    forall j | 0 <= j < k ensures OccursAt(text + rest, secret, j) <==> OccursAt(text, secret, j) {
      OccursExtend(text, rest, secret, j);
    }
  }

  lemma RunningIntoLeaks(secret: string, i: int)
    requires RunsInto(secret, i)
    ensures Leaks(secret)
  {
    var front, back := secret[..i], secret[i..];
    var rest := CompletesBack(back);
    ReplacedBehind(secret, front, rest);
    FrontAndBack(front, back, MARKER + rest);
    assert front + back == secret;
    PrefixOfTail(front + (MARKER + rest), 0, secret);
    assert Contains(Replace(front + (secret + rest), secret, MARKER), secret);
  }

  lemma ReplacedBehind(secret: string, front: string, rest: string)
    requires secret != "" && |rest| < |secret| && Unmatched(front + secret, secret, |front|)
    ensures Replace(front + (secret + rest), secret, MARKER) == front + (MARKER + rest)
  {
    assert (front + secret) + rest == front + (secret + rest);
    UnmatchedExtend(front + secret, rest, secret, |front|);
    SkipsFront(front, secret + rest, secret);
    ReplaceFront(secret, rest);
  }

  lemma CompletesBack(back: string) returns (rest: string)
    requires back != "" && (IsPrefix(back, MARKER) || IsPrefix(MARKER, back))
    ensures |rest| < |back| && IsPrefix(back, MARKER + rest)
  {
    rest := if IsPrefix(MARKER, back) then back[|MARKER|..] else "";
    assert IsPrefix(MARKER, back) ==> MARKER + rest == back;
    assert !IsPrefix(MARKER, back) ==> MARKER + rest == MARKER;
  }

  lemma FrontAndBack(front: string, back: string, text: string)
    requires IsPrefix(back, text)
    ensures IsPrefix(front + back, (front + text)[0..])
  {
    assert (front + text)[..|front + back|] == front + text[..|back|];
  }

  lemma CutInThree(text: string, k: nat, n: nat)
    requires k + n <= |text|
    ensures text == (text[..k] + text[k..k + n]) + text[k + n..] && text[k..][..n] == text[k..k + n]
  {
  }

  lemma RunsHere(text: string, secret: string, k: nat)
    requires 0 < k < |secret| && k <= |text| && text[..k] == secret[..k] && Unmatched(text, secret, k)
    requires OccursAt(text, secret, k) && IsPrefix(secret[k..], Replace(text[k..], secret, MARKER))
    ensures RunsInto(secret, k)
  {
    CutInThree(text, k, |secret|);
    MarkerFront(text[k..], secret, secret[k..]);
    UnmatchedExtend(secret[..k] + secret, text[k + |secret|..], secret, k);
  }

  lemma MarkerFront(after: string, secret: string, back: string)
    requires secret != "" && |after| >= |secret| && after[..|secret|] == secret
    requires IsPrefix(back, Replace(after, secret, MARKER))
    ensures IsPrefix(back, MARKER) || IsPrefix(MARKER, back)
  {
    var r := MARKER + Replace(after[|secret|..], secret, MARKER);
    if |back| <= |MARKER| {
      assert r[..|back|] == MARKER[..|back|];
    } else {
      assert r[..|back|][..|MARKER|] == MARKER;
    }
  }

  lemma FrontOccurs(text: string, secret: string)
    ensures |secret| <= |text| && text[..|secret|] == secret[..|secret|] ==> OccursAt(text, secret, 0)
  {
    assert secret[..|secret|] == secret;
    if |secret| <= |text| { assert text[0..|secret|] == text[..|secret|]; }
  }

  lemma NotAllText(text: string, secret: string, k: nat)
    requires 0 < k <= |secret| && k <= |text| && text[..k] == secret[..k] && Unmatched(text, secret, k)
    requires secret != "" && IsPrefix(secret[k..], Replace(text[k..], secret, MARKER))
    ensures k < |secret| && k < |text|
  {
    FrontOccurs(text, secret);
    assert !OccursAt(text, secret, 0);
    assert Replace("", secret, MARKER) == "";
  }

  /** Where the first k characters of the secret were text, the rest of it is
      completed by a marker, as the secret itself is nowhere before. */
  lemma {:induction false} RestFollows(text: string, secret: string, k: nat)
    requires 0 < k <= |secret| && k <= |text| && text[..k] == secret[..k] && Unmatched(text, secret, k)
    requires IsPrefix(secret[k..], Replace(text[k..], secret, MARKER))
    ensures RunsIntoMarker(secret)
    decreases |text| - k
  {
    NotAllText(text, secret, k);
    if OccursAt(text, secret, k) {
      RunsHere(text, secret, k);
    } else {
      OneMoreCharacter(text, secret, k);
      RestFollows(text, secret, k + 1);
    }
  }

  lemma PrefixStep(back: string, c: char, rest: string)
    requires back != "" && IsPrefix(back, [c] + rest)
    ensures back[0] == c && IsPrefix(back[1..], rest)
  {
    assert ([c] + rest)[..|back|] == back;
    assert rest[..|back| - 1] == back[1..];
  }

  lemma CutAt(text: string, k: nat)
    requires k < |text|
    ensures text == text[..k] + text[k..] && text[k..] == [text[k]] + text[k + 1..]
            && text[..k + 1] == text[..k] + [text[k]]
  {
  }

  lemma OneMoreCharacter(text: string, secret: string, k: nat)
    requires k < |secret| && k < |text| && text[..k] == secret[..k] && !OccursAt(text, secret, k)
    requires IsPrefix(secret[k..], Replace(text[k..], secret, MARKER))
    ensures text[..k + 1] == secret[..k + 1] && IsPrefix(secret[k + 1..], Replace(text[k + 1..], secret, MARKER))
  {
    CutAt(text, k);
    CutAt(secret, k);
    NextReplaced(text[..k], text[k], text[k + 1..], secret, secret[k], secret[k + 1..]);
  }

  lemma NextReplaced(front: string, c: char, after: string, secret: string, d: char, back: string)
    requires secret != "" && !OccursAt(front + ([c] + after), secret, |front|)
    requires IsPrefix([d] + back, Replace([c] + after, secret, MARKER))
    ensures c == d && IsPrefix(back, Replace(after, secret, MARKER))
  {
    OccursShift(front, [c] + after, secret, 0);
    ReplaceStep([c] + after, secret);
    assert ([c] + after)[1..] == after && ([d] + back)[1..] == back;
    PrefixStep([d] + back, c, Replace(after, secret, MARKER));
  }

  lemma LeakStartsHere(text: string, secret: string)
    requires text != "" && secret != "" && !OccursAt(text, secret, 0) && !FollowsMarker(secret)
    requires IsPrefix(secret, [text[0]] + Replace(text[1..], secret, MARKER))
    ensures RunsIntoMarker(secret)
  {
    var rest := Replace(text[1..], secret, MARKER);
    assert ([text[0]] + rest)[..|secret|] == secret;
    assert text[..1] == secret[..1] && rest[..|secret| - 1] == secret[1..];
    RestFollows(text, secret, 1);
  }

  lemma {:induction false} LeakNeedsMarker(text: string, secret: string)
    requires secret != "" && Contains(Replace(text, secret, MARKER), secret) && !FollowsMarker(secret)
    ensures RunsIntoMarker(secret)
    decreases |text|
  {
    if text != "" {
      if OccursAt(text, secret, 0) {
        assert text[..|secret|] == text[0..|secret|];
        BehindMarker(Replace(text[|secret|..], secret, MARKER), secret);
        LeakNeedsMarker(text[|secret|..], secret);
      } else {
        var rest := Replace(text[1..], secret, MARKER);
        ReplaceStep(text, secret);
        ContainsCons(text[0], rest, secret);
        if Contains(rest, secret) {
          LeakNeedsMarker(text[1..], secret);
        } else {
          LeakStartsHere(text, secret);
        }
      }
    }
  }

  /** For one secret over all characters: some text leaks it if and only if the end
      of the marker can spell it, or its own start in front of it can run into the
      marker. The second needs the leftmost occurrence to be the right one: "[["
      shares an end with the marker and never leaks. */
  lemma OneSecretLeaksIff(secret: string)
    requires secret != ""
    ensures AlwaysComplete([secret], {secret}) <==> !(FollowsMarker(secret) || RunsIntoMarker(secret))
  {
    forall text ensures RedactAll(text, [secret]) == Replace(text, secret, MARKER) { OneSecret(text, secret); }
    if FollowsMarker(secret) {
      FollowingLeaks(secret);
    } else if RunsIntoMarker(secret) {
      var i :| 0 < i < |secret| && RunsInto(secret, i);
      RunningIntoLeaks(secret, i);
    } else {
      forall text ensures !Contains(RedactAll(text, [secret]), secret) {
        if Contains(Replace(text, secret, MARKER), secret) { LeakNeedsMarker(text, secret); }
      }
    }
  }

  lemma TwoBracketsNeverLeak()
    ensures Clashes("[[") && AlwaysComplete(["[["], {"[["})
  {
    var secret := "[[";
    assert secret[1..] == "[" && IsPrefix(secret[1..], MARKER);
    assert OccursAt(secret[..1] + secret, secret, 0);
    forall k | 0 <= k < |MARKER| ensures !IsPrefix(MARKER[k..], secret) && !IsPrefix(secret, MARKER[k..]) {
      MarkerHasOneBracket(k);
    }
    OneSecretLeaksIff(secret);
  }

  lemma MarkerHasOneBracket(k: nat)
    requires k < |MARKER|
    ensures !IsPrefix(MARKER[k..], "[[") && !IsPrefix("[[", MARKER[k..])
  {
    var tail := MARKER[k..];
    if k > 0 { assert tail[0] == MARKER[k] != '['; } else { assert tail[1] == 'R'; }
  }

  /** With brackets that condition is not enough: a secret that starts with the
      closing one is not in the marker's word, and the text after the marker can
      complete its bracket to the secret. */
  lemma BracketedSecretLeaks(key: string)
    ensures !Contains("REDACTED", "]" + key)
    ensures Contains(RedactAll("]" + key + key, ["]" + key]), "]" + key)
  {
    var secret := "]" + key;
    var text := secret + key;
    LacksFirst("REDACTED", secret);
    assert text[..|secret|] == secret && text[|secret|..] == key;
    assert Replace(key, secret, MARKER) == key;
    OneSecret(text, secret);
    assert (MARKER + key)[9..9 + |secret|] == secret;
    assert OccursAt(MARKER + key, secret, 9);
  }
}
