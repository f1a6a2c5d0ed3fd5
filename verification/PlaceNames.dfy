/** Which words is_location of scripts/revise-improvement-policy.py takes for places. */
module PlaceNames {
  import opened Text
  import opened Locations

  /** Nothing about the word, already in lower case, can be peeled off. */
  predicate Undecorated(w: string) {
    w != "" && Lower(w) == w && !IsLeading(w[0]) && !IsTrailing(w[|w| - 1]) && ':' !in w && '#' !in w
  }

  lemma NoColon(w: string, start: int, end: int)
    requires Window(w, start, end) && ':' !in w
    ensures !EndsInLineRef(w, start, end)
  {
    FoundInside(w, ':', start, end);
  }

  lemma FoundInside(w: string, c: char, start: int, end: int)
    requires Window(w, start, end)
    ensures RFind(w, c, start, end) != -1 ==> c in w
  {
  }

  lemma HashInside(w: string, start: int, end: int)
    requires Window(w, start, end)
    ensures Fragment(w, start, end).Some? ==> '#' in w
  {
  }

  lemma UndecoratedIsCore(w: string)
    requires Undecorated(w)
    ensures Core(Lower(w)) == w
  {
    NoColon(w, 0, |w|);
    HashInside(w, 0, |w|);
    DropCases(w, 0, |w|);
    assert LeadEnd(w, 0, |w|) == 0 && Bare(w, 0, |w|) == |w|;
    assert w[0..|w|] == w;
  }

  // ---- plain words ----

  predicate IsPlainChar(c: char) { 'a' <= c <= 'z' || c == '/' }

  /** Letters and slashes only. */
  predicate IsPlainPath(w: string) { w != "" && forall i | 0 <= i < |w| :: IsPlainChar(w[i]) }

  lemma PlainIsUndecorated(w: string)
    requires IsPlainPath(w)
    ensures Undecorated(w)
  {
    assert forall i | 0 <= i < |w| :: LowerChar(w[i]) == w[i];
    assert Lower(w) == w;
  }

  /** The text before the first slash, when there is one. */
  predicate FirstSegment(w: string, root: string) {
    |root| < |w| && w[..|root|] == root && w[|root|] == '/' && '/' !in root
  }

  lemma {:induction false} SegmentsOf(w: string)
    ensures var s := Split(w, '/');
            && (|s| > 1 <==> '/' in w) && ('/' in w ==> FirstSegment(w, s[0])) && ('/' !in w ==> s == [w])
  {
    if w != "" {
      var rest := Split(w[1..], '/');
      SegmentsOf(w[1..]);
      assert w == [w[0]] + w[1..];
      if w[0] != '/' && '/' in w[1..] {
        assert w[..|rest[0]| + 1] == [w[0]] + w[1..][..|rest[0]|];
      }
    }
  }

  lemma LongerHasSlash(w: string, root: string, other: string)
    requires |root| < |other| <= |w| && w[|root|] == '/' && other == w[..|other|]
    ensures '/' in other
  {
    assert other[|root|] == w[|root|];
  }

  lemma FirstSegmentIs(w: string, root: string, other: string)
    requires FirstSegment(w, root) && FirstSegment(w, other)
    ensures root == other
  {
    if |root| < |other| {
      LongerHasSlash(w, root, other);
    } else if |other| < |root| {
      LongerHasSlash(w, other, root);
    }
  }

  lemma EndingInside(segment: string, ext: string)
    requires ext != ""
    ensures EndsWith(segment, ext) ==> ext[0] in segment
  {
    if EndsWith(segment, ext) { assert segment[|segment| - |ext|] == segment[|segment| - |ext|..][0]; }
  }

  lemma SegmentInside(w: string, segment: string, c: char)
    requires Contains(w, segment)
    ensures c in segment ==> c in w
  {
    if c in segment {
      var k :| 0 <= k < |segment| && segment[k] == c;
      CharShown(w, segment, k);
    }
  }

  /** An extension: a dot and letters. */
  predicate IsExtension(ext: string) {
    |ext| > 1 && ext[0] == '.' && forall k | 1 <= k < |ext| :: 'a' <= ext[k] <= 'z'
  }

  lemma KnownExtension(i: nat)
    requires i < |LOCATION_EXTENSIONS|
    ensures IsExtension(LOCATION_EXTENSIONS[i])
  {
  }

  lemma PlainIsNoFile(w: string, segment: string)
    requires '.' !in w && segment in Split(w, '/')
    ensures !IsFileName(segment)
  {
    SplitInside(w, '/');
    SegmentInside(w, segment, '.');
    forall i | 0 <= i < |LOCATION_EXTENSIONS| ensures !EndsWith(segment, LOCATION_EXTENSIONS[i]) {
      KnownExtension(i);
      EndingInside(segment, LOCATION_EXTENSIONS[i]);
    }
  }

  lemma StartIsInside(w: string, head: string)
    ensures StartsWith(w, head) ==> Contains(w, head)
  {
    if StartsWith(w, head) { assert OccursAt(w, head, 0); }
  }

  lemma LacksChar(w: string, head: string, k: nat)
    requires k < |head| && head[k] !in w
    ensures !StartsWith(w, head) && !Contains(w, head)
  {
    StartIsInside(w, head);
    if Contains(w, head) { CharShown(w, head, k); }
  }

  lemma NoOtherStart(w: string)
    requires IsPlainPath(w)
    ensures !Contains(w, "http://") && !Contains(w, "https://")
    ensures !StartsWith(w, "./") && !StartsWith(w, "../") && !StartsWith(w, "~/")
    ensures StartsWith(w, "/") <==> w[0] == '/'
  {
    LacksChar(w, "http://", 4); LacksChar(w, "https://", 5);
    LacksChar(w, "./", 0); LacksChar(w, "../", 0); LacksChar(w, "~/", 0);
    assert w[..1] == [w[0]];
  }

  /** Slash-separated words are a place when they start with a slash or with one of the
      known directories, and prose otherwise. */
  lemma PlainWordIsPlace(w: string)
    requires IsPlainPath(w)
    ensures IsPlace(w) <==> w[0] == '/' || exists root | root in LOCATION_ROOTS :: FirstSegment(w, root)
  {
    PlainIsUndecorated(w);
    UndecoratedIsCore(w);
    NoOtherStart(w);
    SegmentsOf(w);
    forall segment | segment in Split(w, '/') ensures !IsFileName(segment) { PlainIsNoFile(w, segment); }
    RootIsFirst(w);
    PlaceByParts(w);
  }

  lemma RootIsFirst(w: string)
    ensures (exists root | root in LOCATION_ROOTS :: FirstSegment(w, root)) <==>
            |Split(w, '/')| > 1 && Split(w, '/')[0] in LOCATION_ROOTS
  {
    SegmentsOf(w);
    forall root | FirstSegment(w, root) ensures '/' in w && root == Split(w, '/')[0] {
      assert w[|root|] in w;
      FirstSegmentIs(w, root, Split(w, '/')[0]);
    }
  }

  lemma PlaceByParts(w: string)
    requires w != "" && !Contains(w, "http://") && !Contains(w, "https://")
    requires !StartsWith(w, "./") && !StartsWith(w, "../") && !StartsWith(w, "~/")
    requires forall segment | segment in Split(w, '/') :: !IsFileName(segment)
    ensures NamesPlace(w) <==> StartsWith(w, "/") || (|Split(w, '/')| > 1 && Split(w, '/')[0] in LOCATION_ROOTS)
  {
  }

  // ---- files ----

  /** A word that ends in a known extension is a place, with or without a line. */
  lemma FileIsPlace(stem: string, i: nat, lines: string)
    requires i < |LOCATION_EXTENSIONS| && stem != "" && (forall k | 0 <= k < |stem| :: 'a' <= stem[k] <= 'z')
    requires IsLineRef(lines)
    ensures var w := stem + LOCATION_EXTENSIONS[i]; IsPlace(w) && IsPlace(w + (":" + lines))
  {
    var ext := LOCATION_EXTENSIONS[i];
    var w := stem + ext;
    KnownExtension(i);
    FileIsUndecorated(stem, ext);
    UndecoratedIsCore(w);
    SplitSingle(w, '/');
    assert EndsWith(w, ext) by { assert w[|w| - |ext|..] == ext; }
    assert IsFileName(Split(w, '/')[0]);
    LineIsDecoration(lines);
    DecorationsNeverDecide(w, '(', ":" + lines);
  }

  lemma FileIsUndecorated(stem: string, ext: string)
    requires stem != "" && (forall k | 0 <= k < |stem| :: 'a' <= stem[k] <= 'z') && IsExtension(ext)
    ensures Undecorated(stem + ext) && '/' !in stem + ext
  {
    var w := stem + ext;
    forall k | 0 <= k < |w| ensures 'a' <= w[k] <= 'z' || w[k] == '.' {
      if k >= |stem| { assert w[k] == ext[k - |stem|]; }
    }
    assert w[|w| - 1] == ext[|ext| - 1];
    LowerOfPlain(w);
  }

  lemma LowerOfPlain(w: string)
    requires forall k | 0 <= k < |w| :: !('A' <= w[k] <= 'Z')
    ensures Lower(w) == w
  {
  }

  lemma LineIsDecoration(lines: string)
    requires IsLineRef(lines)
    ensures IsDecoration(Lower(":" + lines))
  {
    var d := ":" + lines;
    LineRefChars(lines);
    assert Lower(d) == d;
    assert d[1..] == lines;
  }

  // ---- paths and URLs ----

  /** A word that starts as a relative path or a home directory is a place. */
  lemma RelativeIsPlace(rest: string)
    requires rest != "" && Letters(rest)
    ensures IsPlace("./" + rest) && IsPlace("../" + rest) && IsPlace("~/" + rest)
  {
    StartedIsPlace("./", rest);
    StartedIsPlace("../", rest);
    StartedIsPlace("~/", rest);
  }

  lemma StartedIsPlace(head: string, rest: string)
    requires (head == "./" || head == "../" || head == "~/") && rest != "" && Letters(rest)
    ensures IsPlace(head + rest)
  {
    var w := head + rest;
    StartedIsUndecorated(head, rest);
    UndecoratedIsCore(w);
    assert w[..|head|] == head;
    StartNamesPlace(w, head);
  }

  lemma StartNamesPlace(w: string, head: string)
    requires (head == "./" || head == "../" || head == "~/") && StartsWith(w, head)
    ensures NamesPlace(w)
  {
  }

  lemma StartedIsUndecorated(head: string, rest: string)
    requires (head == "./" || head == "../" || head == "~/") && rest != "" && Letters(rest)
    ensures Undecorated(head + rest)
  {
    var w := head + rest;
    assert w[0] == head[0] && w[|w| - 1] == rest[|rest| - 1];
    forall k | 0 <= k < |w| ensures w[k] == '.' || w[k] == '/' || w[k] == '~' || 'a' <= w[k] <= 'z' { }
    LowerOfPlain(w);
  }

  /** A word that contains a web address is a place. */
  lemma UrlIsPlace(front: string, scheme: string, rest: string)
    requires (scheme == "http://" || scheme == "https://") && front != "" && Letters(front) && rest != ""
             && Letters(rest)
    ensures IsPlace(front + scheme + rest)
  {
    var w := front + scheme + rest;
    UrlIsCore(front, scheme, rest);
    assert w[|front|..|front| + |scheme|] == scheme;
    assert OccursAt(w, scheme, |front|);
    UrlNamesPlace(w, scheme);
  }

  lemma UrlNamesPlace(w: string, scheme: string)
    requires (scheme == "http://" || scheme == "https://") && Contains(w, scheme)
    ensures NamesPlace(w)
  {
  }

  lemma UrlIsCore(front: string, scheme: string, rest: string)
    requires (scheme == "http://" || scheme == "https://") && front != "" && Letters(front) && rest != ""
             && Letters(rest)
    ensures Core(Lower(front + scheme + rest)) == front + scheme + rest
  {
    var w := front + scheme + rest;
    SchemeChars(scheme);
    forall k | 0 <= k < |w| ensures UrlChar(w[k]) { UrlChars(front, scheme, rest, k); }
    UrlLowers(w);
    assert w[0] == front[0] && w[|w| - 1] == rest[|rest| - 1];
    PlainEndIsCore(w);
  }

  predicate UrlChar(c: char) { c == ':' || c == '/' || 'a' <= c <= 'z' }

  lemma SchemeChars(scheme: string)
    requires scheme == "http://" || scheme == "https://"
    ensures forall k | 0 <= k < |scheme| :: UrlChar(scheme[k])
  {
  }

  lemma UrlChars(front: string, scheme: string, rest: string, k: nat)
    requires Letters(front) && Letters(rest) && k < |front + scheme + rest|
    requires forall i | 0 <= i < |scheme| :: UrlChar(scheme[i])
    ensures UrlChar((front + scheme + rest)[k])
  {
  }

  lemma UrlLowers(w: string)
    requires forall k | 0 <= k < |w| :: UrlChar(w[k])
    ensures Lower(w) == w && '#' !in w
  {
  }

  lemma PlainEndIsCore(w: string)
    requires w != "" && Lower(w) == w && '#' !in w && 'a' <= w[0] <= 'z' && 'a' <= w[|w| - 1] <= 'z'
    ensures Core(Lower(w)) == w
  {
    LetterEndsNoLineRef(w);
    HashInside(w, 0, |w|);
    DropCases(w, 0, |w|);
    assert LeadEnd(w, 0, |w|) == 0 && Bare(w, 0, |w|) == |w|;
    assert w[0..|w|] == w;
  }

  lemma LetterEndsNoLineRef(w: string)
    requires w != "" && 'a' <= w[|w| - 1] <= 'z'
    ensures !EndsInLineRef(w, 0, |w|)
  {
    var colon := RFind(w, ':', 0, |w|);
    var tail := w[colon + 1..|w|];
    if tail != "" { assert tail[|tail| - 1] == w[|w| - 1]; }
    LetterIsNoLineRef(tail, w[|w| - 1]);
  }

  lemma LetterIsNoLineRef(tail: string, c: char)
    requires 'a' <= c <= 'z'
    ensures tail != "" && tail[|tail| - 1] == c ==> !IsLineRef(tail)
  {
    if tail != "" && IsLineRef(tail) { LineRefChars(tail); }
  }

  // ---- what may be peeled off ----

  const LEADING := "()[]<>`'\"*_"
  const TRAILING := "()[]<>`'\"*_,;.:!?"

  /** The punctuation peeled off at the front, and the further marks at the end. */
  lemma DecorationSets(c: char)
    ensures (IsLeading(c) <==> c in LEADING) && (IsTrailing(c) <==> c in TRAILING)
  {
    LeadingSet(c);
    assert TRAILING == LEADING + ",;.:!?";
    var more := ",;.:!?";
    assert more[0] == ',' && more[1] == ';' && more[2] == '.' && more[3] == ':' && more[4] == '!' && more[5] == '?';
    assert c in TRAILING <==> c in LEADING || c in more;
  }

  lemma LeadingSet(c: char)
    ensures IsLeading(c) <==> c in LEADING
  {
    assert LEADING[0] == '(' && LEADING[1] == ')' && LEADING[2] == '[' && LEADING[3] == ']' && LEADING[4] == '<';
    assert LEADING[5] == '>' && LEADING[6] == '`' && LEADING[7] == '\'' && LEADING[8] == '"' && LEADING[9] == '*';
    assert LEADING[10] == '_';
  }

  predicate Digits(s: string) { s != "" && AllDigits(s) }

  /** A line reference is a number, or two with a hyphen between. */
  lemma LineRefIs(tail: string)
    ensures IsLineRef(tail) <==> Digits(tail) || exists a, b :: Digits(a) && Digits(b) && tail == a + "-" + b
  {
    var parts := Split(tail, '-');
    JoinSplit(tail, '-');
    if IsLineRef(tail) {
      if |parts| == 1 {
        assert tail == parts[0];
      } else {
        assert parts[1..] == [parts[1]];
        assert Join(parts[1..], '-') == parts[1];
        assert tail == parts[0] + ['-'] + parts[1];
        assert Digits(parts[0]) && Digits(parts[1]) && tail == parts[0] + "-" + parts[1];
      }
    }
    if Digits(tail) { SplitSingle(tail, '-'); }
    if a, b :| Digits(a) && Digits(b) && tail == a + "-" + b {
      SplitSingle(b, '-');
      SplitFirst(a, '-', b);
      assert a + ['-'] + b == tail;
    }
  }

  /** A fragment is a line or two, with or without the letter: l41, l41-l43, 41-43. */
  lemma FragmentForms()
    ensures IsFragment("41") && IsFragment("l41") && IsFragment("41-43") && IsFragment("l41-l43")
    ensures !IsFragment("") && !IsFragment("l") && !IsFragment("-")
  {
    PlainFragment("41"); PlainFragment("");
    LetteredFragments();
    HyphenFragments();
  }

  lemma PlainFragment(s: string)
    requires AllDigits(s)
    ensures IsFragment(s) <==> s != ""
  {
    assert s == "" || s[0] != 'l';
    NothingReplaced(s, "-l", "-");
    NothingReplaced(s, "-", "");
  }

  lemma {:induction false} NothingReplaced(s: string, word: string, with: string)
    requires word != "" && AllDigits(s) && !IsDigit(word[0])
    ensures Replace(s, word, with) == s
  {
    if s != "" {
      NothingReplaced(s[1..], word, with);
      assert s == [s[0]] + s[1..];
      if |word| <= |s| { assert s[..|word|][0] == s[0]; }
    }
  }

  lemma ReplaceFrom(front: char, s: string, word: string, with: string)
    requires word != "" && front != word[0]
    ensures Replace([front] + s, word, with) == [front] + Replace(s, word, with)
  {
    assert ([front] + s)[1..] == s;
    if |word| <= |s| + 1 { assert ([front] + s)[..|word|][0] == front; }
    if |s| + 1 < |word| { assert Replace(s, word, with) == s; }
  }

  lemma ReplaceHere(word: string, s: string, with: string)
    requires word != ""
    ensures Replace(word + s, word, with) == with + Replace(s, word, with)
  {
    assert (word + s)[..|word|] == word && (word + s)[|word|..] == s;
  }

  lemma LetteredFragments()
    ensures IsFragment("l41") && !IsFragment("l")
  {
    assert LStrip("l41", 'l') == "41" by { assert "l41"[1..] == "41"; }
    assert LStrip("l", 'l') == "" by { assert "l"[1..] == ""; }
    NothingReplaced("41", "-l", "-"); NothingReplaced("41", "-", "");
    NothingReplaced("", "-l", "-"); NothingReplaced("", "-", "");
  }

  lemma FourThree()
    ensures Replace("43", "-l", "-") == "43" && Replace("43", "-", "") == "43"
  {
    NothingReplaced("43", "-l", "-"); NothingReplaced("43", "-", "");
  }

  lemma HyphensGo()
    ensures Replace("41-43", "-", "") == "4143" && Replace("41-43", "-l", "-") == "41-43"
    ensures Replace("41-l43", "-l", "-") == "41-43"
  {
    FourThree();
    ReplaceHere("-", "43", ""); ReplaceFrom('1', "-43", "-", ""); ReplaceFrom('4', "1-43", "-", "");
    assert "-" + "43" == "-43" && ['1'] + "-43" == "1-43" && ['4'] + "1-43" == "41-43";
    assert "" + "43" == "43" && ['1'] + "43" == "143" && ['4'] + "143" == "4143";
    LettersGo();
  }

  lemma LettersGo()
    ensures Replace("41-43", "-l", "-") == "41-43" && Replace("41-l43", "-l", "-") == "41-43"
  {
    FourThree();
    ReplaceHere("-l", "43", "-"); ReplaceFrom('1', "-l43", "-l", "-"); ReplaceFrom('4', "1-l43", "-l", "-");
    assert "-l" + "43" == "-l43" && ['1'] + "-l43" == "1-l43" && ['4'] + "1-l43" == "41-l43";
    assert "-" + "43" == "-43" && ['1'] + "-43" == "1-43" && ['4'] + "1-43" == "41-43";
    assert "-43"[..2] == "-4" && "-43"[1..] == "43";
    ReplaceFrom('1', "-43", "-l", "-"); ReplaceFrom('4', "1-43", "-l", "-");
  }

  lemma HyphenFragments()
    ensures IsFragment("41-43") && IsFragment("l41-l43") && !IsFragment("-")
  {
    HyphensGo();
    assert LStrip("41-43", 'l') == "41-43";
    assert LStrip("l41-l43", 'l') == "41-l43" by { assert "l41-l43"[1..] == "41-l43"; }
    assert LStrip("-", 'l') == "-" && Replace("-", "-l", "-") == "-";
    ReplaceHere("-", "", "");
    assert "-" + "" == "-" && Replace("", "-", "") == "";
  }

  // ---- examples ----

  predicate Letters(w: string) { forall i | 0 <= i < |w| :: 'a' <= w[i] <= 'z' }

  /** Two words of letters with a slash between: a place exactly when the first is a
      known directory. */
  lemma TwoWords(a: string, b: string)
    requires a != "" && Letters(a) && Letters(b)
    ensures IsPlace(a + "/" + b) <==> a in LOCATION_ROOTS
  {
    var w := a + "/" + b;
    assert w[..|a|] == a && w[|a|] == '/';
    PlainWordIsPlace(w);
    assert FirstSegment(w, a);
    forall root | FirstSegment(w, root) ensures root == a { FirstSegmentIs(w, root, a); }
  }

  lemma FileExample()
    ensures IsPlace("allocator.py") && IsPlace("allocator.py:41-43")
  {
    FortyOne();
    PythonIsKnown();
    FileIsPlace("allocator", 0, "41-43");
    AllocatorSpelled();
  }

  lemma PythonIsKnown()
    ensures |LOCATION_EXTENSIONS| > 0 && LOCATION_EXTENSIONS[0] == ".py"
  {
  }

  lemma AllocatorSpelled()
    ensures "allocator" + ".py" == "allocator.py" && "allocator.py" + (":" + "41-43") == "allocator.py:41-43"
  {
  }

  lemma FortyOne()
    ensures IsLineRef("41-43")
  {
    SplitSingle("43", '-');
    SplitFirst("41", '-', "43");
    assert "41" + ['-'] + "43" == "41-43";
  }
}
