/** Which words of a finding name a place rather than a problem
    (scripts/revise-improvement-policy.py: line_ref_end and is_location). */
module Locations {
  import opened Text

  predicate IsLineRefChar(c: char) { IsDigit(c) || c == '-' || c == ':' }

  predicate IsFragmentChar(c: char) { IsDigit(c) || c == '-' || c == 'l' }

  predicate IsLeading(c: char) {
    c == '(' || c == ')' || c == '[' || c == ']' || c == '<' || c == '>' || c == '`' || c == '\'' || c == '"'
      || c == '*' || c == '_'
  }

  predicate IsTrailing(c: char) {
    IsLeading(c) || c == ',' || c == ';' || c == '.' || c == ':' || c == '!' || c == '?'
  }

  const LOCATION_EXTENSIONS: seq<string> := [
    ".py", ".ts", ".tsx", ".js", ".mjs", ".cjs", ".yml", ".yaml", ".json", ".jsonl", ".md", ".sh", ".toml", ".tf",
    ".tftpl", ".hcl", ".sql", ".css", ".html", ".svg", ".txt", ".snap", ".lock", ".example", ".env", ".cfg", ".ini",
    ".dockerfile"]

  const LOCATION_ROOTS: set<string> := {
    "scripts", "docs", "packages", "terraform", ".github", "tools", "skills", "channels", "schedules", "agents",
    "home", "tmp", "var", "usr", "etc", "opt", "users", "runner", "work", "node_modules", "src", "lib", "test",
    "tests", "dist", "build"}

  ghost predicate Window(w: string, start: int, end: int) { 0 <= start <= end <= |w| }

  // ---- line references ----

  /** w.rfind(c, start, end) */
  function RFind(w: string, c: char, start: int, end: int): (at: int)
    requires Window(w, start, end)
    ensures at == -1 || (start <= at < end && w[at] == c)
    decreases end - start
  {
    if end == start then -1 else if w[end - 1] == c then end - 1 else RFind(w, c, start, end - 1)
  }

  lemma {:induction false} RFindIsLast(w: string, c: char, start: int, end: int, at: int)
    requires Window(w, start, end) && (at == -1 || (start <= at < end && w[at] == c))
    requires forall i | start <= i < end && w[i] == c :: i <= at
    ensures RFind(w, c, start, end) == at
    decreases end - start
  {
    if end > start && w[end - 1] != c { RFindIsLast(w, c, start, end - 1, at); }
  }

  lemma {:induction false} RFindBounds(w: string, c: char, start: int, end: int, i: int)
    requires Window(w, start, end) && start <= i < end && w[i] == c
    ensures i <= RFind(w, c, start, end)
    decreases end - start
  {
    if w[end - 1] != c { RFindBounds(w, c, start, end - 1, i); }
  }

  /** 41 or 41-43 */
  predicate IsLineRef(tail: string) {
    var parts := Split(tail, '-');
    tail != "" && |parts| <= 2 && forall i | 0 <= i < |parts| :: parts[i] != "" && AllDigits(parts[i])
  }

  lemma LineRefChars(tail: string)
    requires IsLineRef(tail)
    ensures forall k | 0 <= k < |tail| :: IsLineRefChar(tail[k]) && IsFragmentChar(tail[k]) && tail[k] != ':'
  {
    forall k | 0 <= k < |tail| ensures IsDigit(tail[k]) || tail[k] == '-' {
      if tail[k] != '-' {
        SplitCovers(tail, '-', k);
        var p :| p in Split(tail, '-') && tail[k] in p;
      }
    }
    forall k | 0 <= k < |tail| ensures IsLineRefChar(tail[k]) && IsFragmentChar(tail[k]) {
      DigitChars(tail[k]);
    }
  }

  lemma DigitChars(c: char)
    requires IsDigit(c) || c == '-'
    ensures IsLineRefChar(c) && IsFragmentChar(c) && c != ':'
  {
  }

  lemma {:induction false} SplitEndsOnSeparator(text: string, sep: char)
    requires text != "" && text[|text| - 1] == sep
    ensures var parts := Split(text, sep); parts[|parts| - 1] == ""
  {
    if |text| > 1 {
      SplitEndsOnSeparator(text[1..], sep);
    } else {
      assert text[1..] == "";
    }
  }

  lemma LineRefEndsInDigit(tail: string)
    requires IsLineRef(tail)
    ensures IsDigit(tail[|tail| - 1])
  {
    LineRefChars(tail);
    if tail[|tail| - 1] == '-' { SplitEndsOnSeparator(tail, '-'); }
    DigitOrDash(tail[|tail| - 1]);
  }

  lemma DigitOrDash(c: char)
    requires IsLineRefChar(c) && c != ':'
    ensures IsDigit(c) || c == '-'
  {
  }

  /** The window ends in a line reference that does not start it. */
  predicate EndsInLineRef(w: string, start: int, end: int)
    requires Window(w, start, end)
  {
    var colon := RFind(w, ':', start, end);
    colon > start && IsLineRef(w[colon + 1..end])
  }

  /** The simple rule: while the window, searched as a whole, ends in a line
      reference that does not start it, drop the reference. */
  function Peel(w: string, start: int, end: int): (e: int)
    requires Window(w, start, end)
    ensures start <= e <= end
    decreases end - start
  {
    if EndsInLineRef(w, start, end) then Peel(w, start, RFind(w, ':', start, end)) else end
  }

  /** Scans back over line-reference characters once and never looks further. */
  method LineRefEnd(w: string, start: int, end: int) returns (e: int)
    requires Window(w, start, end)
    ensures e == Peel(w, start, end)
  {
    var run := end;
    while run > start && IsLineRefChar(w[run - 1])
      invariant start <= run <= end
      invariant forall k | run <= k < end :: IsLineRefChar(w[k])
    {
      run := run - 1;
    }
    e := end;
    while true
      invariant run <= e <= end
      invariant Peel(w, start, e) == Peel(w, start, end)
      decreases e
    {
      var colon := RFind(w, ':', run, e);
      BoundedScan(w, start, run, e, colon);
      if colon <= start || !IsLineRef(w[colon + 1..e]) { break; }
      e := colon;
    }
  }

  /** A reference found in the whole window lies inside the scanned run. */
  lemma BoundedScan(w: string, start: int, run: int, e: int, colon: int)
    requires Window(w, start, e) && start <= run <= e
    requires run == start || !IsLineRefChar(w[run - 1])
    requires colon == RFind(w, ':', run, e)
    ensures EndsInLineRef(w, start, e) <==> colon > start && IsLineRef(w[colon + 1..e])
    ensures colon > start ==> colon == RFind(w, ':', start, e)
  {
    if colon >= run {
      SameLast(w, start, run, e);
    } else if EndsInLineRef(w, start, e) {
      var c := RFind(w, ':', start, e);
      LineRefChars(w[c + 1..e]);
      forall k | c < k < e ensures IsLineRefChar(w[k]) {
        assert w[k] == w[c + 1..e][k - c - 1];
      }
      assert IsLineRefChar(w[c]);
      RFindBounds(w, ':', run, e, c);
    }
  }

  lemma {:induction false} SameLast(w: string, start: int, run: int, e: int)
    requires Window(w, start, e) && start <= run <= e && RFind(w, ':', run, e) >= run
    ensures RFind(w, ':', start, e) == RFind(w, ':', run, e)
    decreases e
  {
    if e > run && w[e - 1] != ':' { SameLast(w, start, run, e - 1); }
  }

  lemma {:induction false} PeelTwice(w: string, start: int, end: int)
    requires Window(w, start, end)
    ensures Peel(w, start, Peel(w, start, end)) == Peel(w, start, end)
    decreases end - start
  {
    if EndsInLineRef(w, start, end) { PeelTwice(w, start, RFind(w, ':', start, end)); }
  }

  // ---- fragments ----

  function FragmentRun(w: string, start: int, end: int): (at: int)
    requires Window(w, start, end)
    ensures start <= at <= end && (at < end ==> IsFragmentChar(w[end - 1]))
    decreases end - start
  {
    if end > start && IsFragmentChar(w[end - 1]) then FragmentRun(w, start, end - 1) else end
  }

  lemma {:induction false} FragmentRunIs(w: string, start: int, end: int, at: int)
    requires Window(w, start, end) && start <= at <= end
    requires at == start || !IsFragmentChar(w[at - 1])
    requires forall k | at <= k < end :: IsFragmentChar(w[k])
    ensures FragmentRun(w, start, end) == at
    decreases end - start
  {
    if end > at { FragmentRunIs(w, start, end - 1, at); }
  }

  function LStrip(s: string, c: char): string {
    if s != "" && s[0] == c then LStrip(s[1..], c) else s
  }

  /** L41, L41-L43 or 41-43, lower-cased. */
  predicate IsFragment(tail: string) {
    var digits := Replace(Replace(LStrip(tail, 'l'), "-l", "-"), "-", "");
    digits != "" && AllDigits(digits)
  }

  function Fragment(w: string, start: int, end: int): (hash: Option<int>)
    requires Window(w, start, end)
    ensures hash.Some? ==> start < hash.value < end && w[hash.value] == '#' && IsFragmentChar(w[end - 1])
  {
    var i := FragmentRun(w, start, end);
    if i - 1 <= start || w[i - 1] != '#' then None
    else if i < end && IsFragment(w[i..end]) then Some(i - 1)
    else None
  }

  method FragmentStart(w: string, start: int, end: int) returns (hash: Option<int>)
    requires Window(w, start, end)
    ensures hash == Fragment(w, start, end)
  {
    var i := end;
    while i > start && IsFragmentChar(w[i - 1])
      invariant start <= i <= end
      invariant FragmentRun(w, start, i) == FragmentRun(w, start, end)
    {
      i := i - 1;
    }
    var at := i - 1;
    if at <= start || w[at] != '#' { return None; }
    hash := if IsFragment(w[i..end]) then Some(at) else None;
    assert w[end..end] == "";
  }

  // ---- peeling a word ----

  function LeadEnd(w: string, start: int, end: int): (at: int)
    requires Window(w, start, end)
    ensures start <= at <= end && (at < end ==> !IsLeading(w[at]))
    decreases end - start
  {
    if start < end && IsLeading(w[start]) then LeadEnd(w, start + 1, end) else start
  }

  lemma LineRefIsNoOther(w: string, start: int, end: int)
    requires Window(w, start, end) && EndsInLineRef(w, start, end)
    ensures end > start && !IsTrailing(w[end - 1]) && Fragment(w, start, end).None?
  {
    var colon := RFind(w, ':', start, end);
    var tail := w[colon + 1..end];
    LineRefEndsInDigit(tail);
    LineRefChars(tail);
    assert w[end - 1] == tail[|tail| - 1];
    forall k | colon < k < end ensures IsFragmentChar(w[k]) { assert w[k] == tail[k - colon - 1]; }
    FragmentRunIs(w, start, end, colon + 1);
  }

  lemma FragmentIsNotTrailing(w: string, start: int, end: int)
    requires Window(w, start, end) && Fragment(w, start, end).Some?
    ensures !IsTrailing(w[end - 1])
  {
  }

  /** The simple rule for the end of a word: take away the one thing that can be
      taken away, if any. */
  function Drop(w: string, start: int, end: int): (e: int)
    requires Window(w, start, end)
    ensures start <= e <= end
  {
    if EndsInLineRef(w, start, end) then RFind(w, ':', start, end)
    else if Fragment(w, start, end).Some? then Fragment(w, start, end).value
    else if end > start && IsTrailing(w[end - 1]) then end - 1
    else end
  }

  /** The three cases exclude each other, so their order is immaterial. */
  lemma DropCases(w: string, start: int, end: int)
    requires Window(w, start, end)
    ensures end > start && IsTrailing(w[end - 1]) ==> Drop(w, start, end) == end - 1
    ensures EndsInLineRef(w, start, end) ==> Drop(w, start, end) == RFind(w, ':', start, end)
    ensures Fragment(w, start, end).Some? ==> Some(Drop(w, start, end)) == Fragment(w, start, end)
    ensures Drop(w, start, end) == end <==>
            !((end > start && IsTrailing(w[end - 1])) || EndsInLineRef(w, start, end) || Fragment(w, start, end).Some?)
  {
    if EndsInLineRef(w, start, end) {
      LineRefIsNoOther(w, start, end);
    } else if Fragment(w, start, end).Some? {
      FragmentIsNotTrailing(w, start, end);
    }
  }

  /** ... until nothing changes. */
  function Bare(w: string, start: int, end: int): (e: int)
    requires Window(w, start, end)
    ensures start <= e <= end
    decreases end - start
  {
    var e := Drop(w, start, end);
    if e == end then end else Bare(w, start, e)
  }

  lemma {:induction false} BareIsFinal(w: string, start: int, end: int)
    requires Window(w, start, end)
    ensures Drop(w, start, Bare(w, start, end)) == Bare(w, start, end)
    decreases end - start
  {
    var e := Drop(w, start, end);
    if e != end { BareIsFinal(w, start, e); }
  }

  /** Peeling line references, all at once, is a run of single steps. */
  lemma {:induction false} PeelIsSteps(w: string, start: int, end: int)
    requires Window(w, start, end)
    ensures Bare(w, start, Peel(w, start, end)) == Bare(w, start, end)
    decreases end - start
  {
    if EndsInLineRef(w, start, end) {
      DropCases(w, start, end);
      PeelIsSteps(w, start, RFind(w, ':', start, end));
    }
  }

  lemma FragmentIsStep(w: string, start: int, end: int)
    requires Window(w, start, end) && Fragment(w, start, end).Some?
    ensures Bare(w, start, Fragment(w, start, end).value) == Bare(w, start, end)
  {
    DropCases(w, start, end);
  }

  // ---- is_location ----

  predicate StartsWith(w: string, head: string) { |head| <= |w| && w[..|head|] == head }

  predicate EndsWith(w: string, tail: string) { |tail| <= |w| && w[|w| - |tail|..] == tail }

  predicate IsFileName(segment: string) {
    exists i | 0 <= i < |LOCATION_EXTENSIONS| :: EndsWith(segment, LOCATION_EXTENSIONS[i])
  }

  /** What a word without decorations must look like. */
  predicate NamesPlace(w: string) {
    var segments := Split(w, '/');
    w != "" && (
      || Contains(w, "http://") || Contains(w, "https://")
      || StartsWith(w, "/") || StartsWith(w, "./") || StartsWith(w, "../") || StartsWith(w, "~/")
      || (exists i | 0 <= i < |segments| :: IsFileName(segments[i]))
      || (|segments| > 1 && segments[0] in LOCATION_ROOTS))
  }

  /** The word without leading decorations and without anything that can be taken
      away from its end. */
  function Core(w: string): string {
    var start := LeadEnd(w, 0, |w|);
    w[start..Bare(w, start, |w|)]
  }

  predicate IsPlace(word: string) { NamesPlace(Core(Lower(word))) }

  method StripTrailing(w: string, start: int, end: int) returns (e: int)
    requires Window(w, start, end)
    ensures start <= e <= end && Bare(w, start, e) == Bare(w, start, end)
    ensures e > start ==> !IsTrailing(w[e - 1])
  {
    e := end;
    while e > start && IsTrailing(w[e - 1])
      invariant start <= e <= end && Bare(w, start, e) == Bare(w, start, end)
    {
      DropCases(w, start, e);
      e := e - 1;
    }
  }

  /** One pass over the end of the window. */
  method PeelEnd(w: string, start: int, end: int) returns (e: int)
    requires Window(w, start, end)
    ensures start <= e <= end && Bare(w, start, e) == Bare(w, start, end)
    ensures e == end ==> Drop(w, start, end) == end
  {
    DropCases(w, start, end);
    e := StripTrailing(w, start, end);
    PeelIsSteps(w, start, e);
    e := LineRefEnd(w, start, e);
    var hash := FragmentStart(w, start, e);
    if hash.Some? {
      FragmentIsStep(w, start, e);
      e := hash.value;
    }
  }

  method StripLeading(w: string, start: int, end: int) returns (s: int)
    requires Window(w, start, end)
    ensures s == LeadEnd(w, start, end)
  {
    s := start;
    while s < end && IsLeading(w[s])
      invariant start <= s <= end && LeadEnd(w, s, end) == LeadEnd(w, start, end)
    {
      s := s + 1;
    }
  }

  /** Peels punctuation, line references and fragments in turns until a pass
      changes nothing; the turns do not matter. */
  method IsLocation(word: string) returns (b: bool)
    ensures b == IsPlace(word)
  {
    var w := Lower(word);
    ghost var lead := LeadEnd(w, 0, |w|);
    var start, end := 0, |w|;
    while true
      invariant start <= lead <= end <= |w|
      invariant start == lead || (start == 0 && end == |w|)
      invariant Bare(w, lead, end) == Bare(w, lead, |w|)
      decreases end - start
    {
      var s := StripLeading(w, start, end);
      var e := PeelEnd(w, s, end);
      if s == start && e == end { break; }
      start, end := s, e;
    }
    b := NamesPlace(w[start..end]);
  }

  // ---- windows with the same text peel alike ----

  ghost predicate SameText(w: string, s: int, e: int, v: string, p: int, q: int) {
    Window(w, s, e) && Window(v, p, q) && w[s..e] == v[p..q]
  }

  lemma SameChar(w: string, s: int, e: int, v: string, p: int, q: int, k: int)
    requires SameText(w, s, e, v, p, q) && s <= k < e
    ensures w[k] == v[k - s + p]
  {
    assert w[s..e][k - s] == v[p..q][k - s];
  }

  lemma Narrower(w: string, s: int, e: int, v: string, p: int, q: int, i: int, j: int)
    requires SameText(w, s, e, v, p, q) && s <= i <= j <= e
    ensures SameText(w, i, j, v, i - s + p, j - s + p)
  {
    SameLength(w, s, e, v, p, q);
    forall k | 0 <= k < j - i ensures w[i..j][k] == v[i - s + p..j - s + p][k] {
      SameChar(w, s, e, v, p, q, i + k);
    }
  }

  lemma {:induction false} SameRFind(w: string, s: int, e: int, v: string, p: int, q: int, c: char)
    requires SameText(w, s, e, v, p, q)
    ensures RFind(v, c, p, q) == (if RFind(w, c, s, e) == -1 then -1 else RFind(w, c, s, e) - s + p)
    decreases e - s
  {
    assert |w[s..e]| == |v[p..q]|;
    if e > s {
      SameChar(w, s, e, v, p, q, e - 1);
      Narrower(w, s, e, v, p, q, s, e - 1);
      SameRFind(w, s, e - 1, v, p, q - 1, c);
    }
  }

  lemma {:induction false} SameRun(w: string, s: int, e: int, v: string, p: int, q: int)
    requires SameText(w, s, e, v, p, q)
    ensures FragmentRun(v, p, q) == FragmentRun(w, s, e) - s + p
    decreases e - s
  {
    assert |w[s..e]| == |v[p..q]|;
    if e > s {
      SameChar(w, s, e, v, p, q, e - 1);
      Narrower(w, s, e, v, p, q, s, e - 1);
      SameRun(w, s, e - 1, v, p, q - 1);
    }
  }

  lemma SameLineRef(w: string, s: int, e: int, v: string, p: int, q: int)
    requires SameText(w, s, e, v, p, q)
    ensures EndsInLineRef(v, p, q) <==> EndsInLineRef(w, s, e)
  {
    SameRFind(w, s, e, v, p, q, ':');
    assert |w[s..e]| == |v[p..q]|;
    var colon := RFind(w, ':', s, e);
    if colon > s { Narrower(w, s, e, v, p, q, colon + 1, e); }
  }

  lemma SameFragment(w: string, s: int, e: int, v: string, p: int, q: int)
    requires SameText(w, s, e, v, p, q)
    ensures Fragment(v, p, q) == (if Fragment(w, s, e).None? then None else Some(Fragment(w, s, e).value - s + p))
  {
    SameRun(w, s, e, v, p, q);
    assert |w[s..e]| == |v[p..q]|;
    var i := FragmentRun(w, s, e);
    if i - 1 > s {
      SameChar(w, s, e, v, p, q, i - 1);
      Narrower(w, s, e, v, p, q, i, e);
    }
  }

  lemma SameDrop(w: string, s: int, e: int, v: string, p: int, q: int)
    requires SameText(w, s, e, v, p, q)
    ensures Drop(v, p, q) == Drop(w, s, e) - s + p
  {
    assert |w[s..e]| == |v[p..q]|;
    SameRFind(w, s, e, v, p, q, ':');
    SameLineRef(w, s, e, v, p, q);
    SameFragment(w, s, e, v, p, q);
    if e > s { SameChar(w, s, e, v, p, q, e - 1); }
  }

  lemma BareStep(w: string, s: int, e: int, d: int)
    requires Window(w, s, e) && d == Drop(w, s, e)
    ensures Bare(w, s, e) == Bare(w, s, d)
  {
  }

  lemma BareStop(w: string, s: int, e: int)
    requires Window(w, s, e) && e == Drop(w, s, e)
    ensures Bare(w, s, e) == e
  {
  }

  lemma {:induction false} SameBare(w: string, s: int, e: int, v: string, p: int, q: int)
    requires SameText(w, s, e, v, p, q)
    ensures Bare(v, p, q) == Bare(w, s, e) - s + p
    decreases e - s
  {
    SameLength(w, s, e, v, p, q);
    SameDrop(w, s, e, v, p, q);
    var d := Drop(w, s, e);
    if d != e {
      Narrower(w, s, e, v, p, q, s, d);
      SameBare(w, s, d, v, p, d - s + p);
      BareStep(w, s, e, d);
      BareStep(v, p, q, d - s + p);
    } else {
      BareStop(w, s, e);
      BareStop(v, p, q);
    }
  }

  lemma SameLength(w: string, s: int, e: int, v: string, p: int, q: int)
    requires SameText(w, s, e, v, p, q)
    ensures e - s == q - p
  {
    assert |w[s..e]| == |v[p..q]|;
  }

  /** Peeling the result again changes nothing. */
  lemma CoreTwice(w: string)
    ensures Core(Core(w)) == Core(w)
  {
    var start := LeadEnd(w, 0, |w|);
    var end := Bare(w, start, |w|);
    var u := Core(w);
    assert SameText(w, start, end, u, 0, |u|);
    SameDrop(w, start, end, u, 0, |u|);
    BareIsFinal(w, start, |w|);
    BareStop(u, 0, |u|);
    if u != "" { assert u[0] == w[start]; }
    assert u[0..|u|] == u;
  }

  // ---- decorations never decide ----

  predicate IsPunctuation(d: string) { |d| == 1 && IsTrailing(d[0]) }

  predicate IsDecoration(d: string) {
    d != "" && (
      || IsPunctuation(d)
      || (d[0] == ':' && IsLineRef(d[1..]))
      || (d[0] == '#' && IsFragment(d[1..]) && forall k | 1 <= k < |d| :: IsFragmentChar(d[k])))
  }

  lemma DecorationDrops(w: string, d: string, start: int)
    requires 0 <= start < |w| && IsDecoration(d)
    ensures Drop(w + d, start, |w + d|) == |w|
  {
    var v := w + d;
    assert forall k | 0 <= k < |d| :: v[|w| + k] == d[k];
    DropCases(v, start, |v|);
    if d[0] == ':' && IsLineRef(d[1..]) {
      LineRefChars(d[1..]);
      forall k | |w| < k < |v| ensures v[k] != ':' { assert v[k] == d[1..][k - |w| - 1]; }
      RFindIsLast(v, ':', start, |v|, |w|);
      assert v[|w| + 1..|v|] == d[1..];
    } else if d[0] == '#' {
      FragmentRunIs(v, start, |v|, |w| + 1);
      assert v[|w| + 1..|v|] == d[1..];
    }
  }

  lemma {:induction false} LeadOfLonger(w: string, d: string, from: int)
    requires 0 <= from <= |w|
    requires LeadEnd(w, from, |w|) < |w|
    ensures LeadEnd(w + d, from, |w + d|) == LeadEnd(w, from, |w|)
    decreases |w| - from
  {
    assert from < |w| ==> (w + d)[from] == w[from];
    if from < |w| && IsLeading(w[from]) { LeadOfLonger(w, d, from + 1); }
  }

  lemma CoreOf(w: string, start: int, end: int)
    requires start == LeadEnd(w, 0, |w|) && end == Bare(w, start, |w|)
    ensures Core(w) == w[start..end]
  {
  }

  /** Whatever decoration is glued to the end of a word, its core stays the same;
      the word must have a character that is not itself a leading decoration. */
  lemma DecorationIsPeeled(w: string, d: string)
    requires IsDecoration(d) && LeadEnd(w, 0, |w|) < |w|
    ensures Core(w + d) == Core(w)
  {
    var start := LeadEnd(w, 0, |w|);
    var end := Bare(w, start, |w|);
    LeadOfLonger(w, d, 0);
    DecorationDrops(w, d, start);
    BareStep(w + d, start, |w + d|, |w|);
    PrefixText(w, d, start, |w|);
    SameBare(w, start, |w|, w + d, start, |w|);
    CoreOf(w, start, end);
    CoreOf(w + d, start, end);
    PrefixText(w, d, start, end);
  }

  lemma PrefixText(w: string, d: string, i: int, j: int)
    requires 0 <= i <= j <= |w|
    ensures SameText(w, i, j, w + d, i, j)
  {
  }

  lemma {:induction false} LeadShift(c: char, w: string, from: int)
    requires 0 <= from <= |w|
    ensures LeadEnd([c] + w, from + 1, |w| + 1) == LeadEnd(w, from, |w|) + 1
    decreases |w| - from
  {
    if from < |w| {
      assert ([c] + w)[from + 1] == w[from];
      if IsLeading(w[from]) { LeadShift(c, w, from + 1); }
    }
  }

  lemma ConsText(c: char, w: string, i: int, j: int)
    requires 0 <= i <= j <= |w|
    ensures SameText(w, i, j, [c] + w, i + 1, j + 1)
  {
  }

  lemma LeadOfDecorated(c: char, w: string)
    requires IsLeading(c)
    ensures LeadEnd([c] + w, 0, |w| + 1) == LeadEnd(w, 0, |w|) + 1
  {
    LeadShift(c, w, 0);
  }

  lemma LeadingIsPeeled(c: char, w: string)
    requires IsLeading(c)
    ensures Core([c] + w) == Core(w)
  {
    var v, start := [c] + w, LeadEnd(w, 0, |w|);
    var end := Bare(w, start, |w|);
    assert |v| == |w| + 1;
    LeadOfDecorated(c, w);
    ConsText(c, w, start, |w|);
    SameBare(w, start, |w|, v, start + 1, |v|);
    CoreOf(w, start, end);
    CoreOf(v, start + 1, end + 1);
    ConsText(c, w, start, end);
  }

  // Words made of leading decorations only: nothing glued to them names a place.

  lemma {:induction false} LeadPasses(w: string, d: string, from: int)
    requires 0 <= from <= |w| && LeadEnd(w, from, |w|) == |w|
    ensures LeadEnd(w + d, from, |w + d|) >= |w|
    decreases |w| - from
  {
    if from < |w| {
      assert (w + d)[from] == w[from];
      LeadPasses(w, d, from + 1);
    }
  }

  lemma CharShown(text: string, word: string, k: nat)
    requires Contains(text, word) && k < |word|
    ensures word[k] in text
  {
    var at :| 0 <= at <= |text| - |word| && OccursAt(text, word, at);
    assert text[at + k] == text[at..at + |word|][k];
  }

  lemma ExtensionsAreDotted(i: nat)
    requires i < |LOCATION_EXTENSIONS|
    ensures LOCATION_EXTENSIONS[i] != "" && LOCATION_EXTENSIONS[i][0] == '.'
  {
  }

  lemma FileNamesAreDotted(segment: string)
    requires IsFileName(segment)
    ensures '.' in segment
  {
    var i :| 0 <= i < |LOCATION_EXTENSIONS| && EndsWith(segment, LOCATION_EXTENSIONS[i]);
    ExtensionsAreDotted(i);
    var ext := LOCATION_EXTENSIONS[i];
    assert segment[|segment| - |ext|..][0] == segment[|segment| - |ext|];
  }

  lemma PlainIsNoPlace(w: string)
    requires '/' !in w && '.' !in w
    ensures !NamesPlace(w)
  {
    if Contains(w, "http://") { CharShown(w, "http://", 5); }
    if Contains(w, "https://") { CharShown(w, "https://", 6); }
    SplitSingle(w, '/');
    if IsFileName(w) { FileNamesAreDotted(w); }
    if StartsWith(w, "~/") { StartShown(w, "~/", 1); }
  }

  lemma StartShown(text: string, head: string, k: nat)
    requires StartsWith(text, head) && k < |head|
    ensures head[k] in text
  {
    assert text[k] == text[..|head|][k];
  }

  lemma EmptyIsNoPlace()
    ensures !NamesPlace("")
  {
  }

  lemma LonePunctuationCore(w: string, d: string)
    requires IsPunctuation(d) && LeadEnd(w + d, 0, |w + d|) >= |w|
    ensures Core(w + d) == ""
  {
    var v := w + d;
    var start := LeadEnd(v, 0, |v|);
    assert v == w + [d[0]];
    if start == |w| { LonePunctuation(w, d[0]); }
    CoreOf(v, start, Bare(v, start, |v|));
  }

  lemma LonePlainCore(w: string, d: string)
    requires LeadEnd(w + d, 0, |w + d|) >= |w|
    requires forall k | 0 <= k < |d| :: d[k] != '/' && d[k] != '.'
    ensures !NamesPlace(Core(w + d))
  {
    var v := w + d;
    var start := LeadEnd(v, 0, |v|);
    var end := Bare(v, start, |v|);
    CoreOf(v, start, end);
    PlainPart(w, d, start, end);
    PlainIsNoPlace(v[start..end]);
  }

  lemma PlainPart(w: string, d: string, start: int, end: int)
    requires |w| <= start <= end <= |w + d|
    requires forall k | 0 <= k < |d| :: d[k] != '/' && d[k] != '.'
    ensures '/' !in (w + d)[start..end] && '.' !in (w + d)[start..end]
  {
    forall k | start <= k < end ensures (w + d)[k] != '/' && (w + d)[k] != '.' { assert (w + d)[k] == d[k - |w|]; }
  }

  lemma LonePunctuation(w: string, c: char)
    requires IsTrailing(c)
    ensures Bare(w + [c], |w|, |w| + 1) == |w|
  {
    DropCases(w + [c], |w|, |w| + 1);
    BareStep(w + [c], |w|, |w| + 1, |w|);
  }

  lemma LoneReference(d: string)
    requires IsDecoration(d) && !IsPunctuation(d)
    ensures forall k | 0 <= k < |d| :: d[k] != '/' && d[k] != '.'
  {
    if d[0] == ':' { LineRefChars(d[1..]); }
    forall k | 0 < k < |d| ensures d[k] != '/' && d[k] != '.' { assert d[1..][k - 1] == d[k]; }
  }

  lemma LoneMark(w: string, d: string)
    requires LeadEnd(w, 0, |w|) == |w| && IsPunctuation(d)
    ensures !NamesPlace(Core(w + d))
  {
    LeadPasses(w, d, 0);
    LonePunctuationCore(w, d);
    EmptyIsNoPlace();
  }

  lemma LoneTail(w: string, d: string)
    requires LeadEnd(w, 0, |w|) == |w| && IsDecoration(d) && !IsPunctuation(d)
    ensures !NamesPlace(Core(w + d))
  {
    LeadPasses(w, d, 0);
    LoneReference(d);
    LonePlainCore(w, d);
  }

  /** is_location gives a decorated word the answer it gives the word. */
  lemma DecorationsNeverDecide(word: string, before: char, after: string)
    requires IsLeading(before) && IsDecoration(Lower(after))
    ensures IsPlace([before] + word) == IsPlace(word)
    ensures IsPlace(word + after) == IsPlace(word)
  {
    var w := Lower(word);
    LowerConcat([before], word);
    LowerConcat(word, after);
    assert Lower([before]) == [before];
    LeadingIsPeeled(before, w);
    if LeadEnd(w, 0, |w|) < |w| {
      DecorationIsPeeled(w, Lower(after));
    } else {
      if IsPunctuation(Lower(after)) { LoneMark(w, Lower(after)); } else { LoneTail(w, Lower(after)); }
      CoreOf(w, |w|, |w|);
    }
  }
}
