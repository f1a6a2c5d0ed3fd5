/** Strings as the scripts see them: substring search, lower-casing, decimal
    numerals, and the code-point order that Python and the signer sort by. */
module Text {
  datatype Option<+T> = None | Some(value: T)

  predicate OccursAt(text: string, word: string, at: int) {
    0 <= at <= |text| - |word| && text[at..at + |word|] == word
  }

  /** `word in text`. */
  predicate Contains(text: string, word: string) {
    exists at | 0 <= at <= |text| - |word| :: OccursAt(text, word, at)
  }

  /** ASCII case folding of one character. */
  function LowerChar(c: char): char {
    if 'A' <= c <= 'Z' then (c as int + 32) as char else c
  }

  function Lower(s: string): string {
    seq(|s|, i requires 0 <= i < |s| => LowerChar(s[i]))
  }

  const CAPITALS := "ABCDEFGHIJKLMNOPQRSTUVWXYZ"
  const SMALL := "abcdefghijklmnopqrstuvwxyz"

  /** Lower-casing replaces each capital by its small letter and keeps all else. */
  lemma LowerFolds(s: string, k: nat)
    requires k < |s|
    ensures |Lower(s)| == |s|
    ensures forall i | 0 <= i < 26 && s[k] == CAPITALS[i] :: Lower(s)[k] == SMALL[i]
    ensures (forall i | 0 <= i < 26 :: s[k] != CAPITALS[i]) ==> Lower(s)[k] == s[k]
  {
    forall i | 0 <= i < 26 ensures CAPITALS[i] as int == 'A' as int + i && SMALL[i] as int == 'a' as int + i { }
    if 'A' <= s[k] <= 'Z' { assert CAPITALS[s[k] as int - 'A' as int] == s[k]; }
  }

  lemma LowerConcat(a: string, b: string)
    ensures Lower(a + b) == Lower(a) + Lower(b)
  {
  }

  predicate IsDigit(c: char) { '0' <= c <= '9' }

  predicate AllDigits(s: string) { forall i | 0 <= i < |s| :: IsDigit(s[i]) }

  /** The decimal numeral of n, without leading zeros. */
  function Decimal(n: nat): (s: string)
    ensures |s| >= 1 && AllDigits(s)
  {
    var last := [('0' as int + n % 10) as char];
    if n < 10 then last else Decimal(n / 10) + last
  }

  /** The number a digit string denotes. */
  function Numeral(s: string): nat
    requires AllDigits(s)
  {
    if s == [] then 0
    else 10 * Numeral(s[..|s| - 1]) + (s[|s| - 1] as int - '0' as int)
  }

  lemma {:induction false} NumeralOfDecimal(n: nat)
    ensures Numeral(Decimal(n)) == n
  {
    var s := Decimal(n);
    if n >= 10 {
      NumeralOfDecimal(n / 10);
      assert s[..|s| - 1] == Decimal(n / 10);
    }
  }

  lemma {:induction false} DecimalFits(n: nat, width: nat, bound: nat)
    requires n < bound && width >= 1
    requires bound == Power10(width)
    ensures |Decimal(n)| <= width
  {
    if n >= 10 {
      assert width >= 2;
      DecimalFits(n / 10, width - 1, Power10(width - 1));
    }
  }

  function Power10(k: nat): nat { if k == 0 then 1 else 10 * Power10(k - 1) }

  // ---- the order of sorted strings ----

  /** Lexicographic order of integer sequences; a proper prefix comes first. */
  predicate LexLe(a: seq<int>, b: seq<int>) {
    a == [] || (b != [] && (a[0] < b[0] || (a[0] == b[0] && LexLe(a[1..], b[1..]))))
  }

  function Codes(s: string): (r: seq<int>)
    ensures |r| == |s| && forall i | 0 <= i < |s| :: r[i] == s[i] as int
  {
    seq(|s|, i requires 0 <= i < |s| => s[i] as int)
  }

  predicate StringLe(a: string, b: string) { LexLe(Codes(a), Codes(b)) }

  lemma {:induction false} LexTotal(a: seq<int>, b: seq<int>)
    ensures LexLe(a, b) || LexLe(b, a)
  {
    if a != [] && b != [] { LexTotal(a[1..], b[1..]); }
  }

  lemma {:induction false} LexAntisymmetric(a: seq<int>, b: seq<int>)
    requires LexLe(a, b) && LexLe(b, a)
    ensures a == b
  {
    if a != [] && b != [] {
      LexAntisymmetric(a[1..], b[1..]);
      assert a == [a[0]] + a[1..] && b == [b[0]] + b[1..];
    }
  }

  lemma {:induction false} LexTransitive(a: seq<int>, b: seq<int>, c: seq<int>)
    requires LexLe(a, b) && LexLe(b, c)
    ensures LexLe(a, c)
  {
    if a != [] && b != [] && c != [] && a[0] == b[0] == c[0] { LexTransitive(a[1..], b[1..], c[1..]); }
  }

  lemma CodesInjective(a: string, b: string)
    requires Codes(a) == Codes(b)
    ensures a == b
  {
    assert |a| == |Codes(a)| == |b|;
    forall i | 0 <= i < |a| ensures a[i] == b[i] {
      assert Codes(a)[i] == Codes(b)[i];
    }
  }

  lemma StringAntisymmetric(a: string, b: string)
    requires StringLe(a, b) && StringLe(b, a)
    ensures a == b
  {
    LexAntisymmetric(Codes(a), Codes(b));
    CodesInjective(a, b);
  }

  // ---- searching ----

  predicate IsPrefix(a: string, b: string) { |a| <= |b| && b[..|a|] == a }

  lemma ContainsCons(c: char, text: string, word: string)
    requires Contains([c] + text, word)
    ensures IsPrefix(word, [c] + text) || Contains(text, word)
  {
    var at :| 0 <= at <= |[c] + text| - |word| && OccursAt([c] + text, word, at);
    if at > 0 {
      assert text[at - 1..at - 1 + |word|] == ([c] + text)[at..at + |word|];
      assert OccursAt(text, word, at - 1);
    }
  }

  lemma ContainsMore(head: string, text: string, word: string)
    requires Contains(text, word)
    ensures Contains(head + text, word)
  {
    var at :| 0 <= at <= |text| - |word| && OccursAt(text, word, at);
    assert (head + text)[|head| + at..|head| + at + |word|] == text[at..at + |word|];
    assert OccursAt(head + text, word, |head| + at);
  }

  lemma ContainsInside(text: string, part: string, word: string)
    requires Contains(text, part) && Contains(part, word)
    ensures Contains(text, word)
  {
    var at :| 0 <= at <= |text| - |part| && OccursAt(text, part, at);
    var k :| 0 <= k <= |part| - |word| && OccursAt(part, word, k);
    var whole := text[at..at + |part|];
    forall i | 0 <= i < |word| ensures text[at + k + i] == word[i] {
      assert whole[k + i] == part[k + i] && part[k..k + |word|][i] == word[i];
    }
    assert text[at + k..at + k + |word|] == word;
    assert OccursAt(text, word, at + k);
  }

  lemma LacksFirst(text: string, word: string)
    requires word != "" && word[0] !in text
    ensures !Contains(text, word)
  {
    if Contains(text, word) {
      var at :| 0 <= at <= |text| - |word| && OccursAt(text, word, at);
      FirstShows(text, word, at);
    }
  }

  lemma FirstShows(text: string, word: string, at: int)
    requires OccursAt(text, word, at) && word != ""
    ensures word[0] in text
  {
    assert text[at] == text[at..at + |word|][0];
  }

  // ---- splitting ----

  /** text.split(sep): one part more than there are separators. */
  function Split(text: string, sep: char): (parts: seq<string>)
    ensures |parts| >= 1
  {
    if text == "" then [""]
    else
      var rest := Split(text[1..], sep);
      if text[0] == sep then [""] + rest else [[text[0]] + rest[0]] + rest[1..]
  }

  function Join(parts: seq<string>, sep: char): string {
    if parts == [] then "" else if |parts| == 1 then parts[0] else parts[0] + [sep] + Join(parts[1..], sep)
  }

  lemma {:induction false} SplitSingle(text: string, sep: char)
    requires sep !in text
    ensures Split(text, sep) == [text]
  {
    if text != "" {
      assert text == [text[0]] + text[1..];
      SplitSingle(text[1..], sep);
    }
  }

  lemma {:induction false} SplitFirst(head: string, sep: char, tail: string)
    requires sep !in head
    ensures Split(head + [sep] + tail, sep) == [head] + Split(tail, sep)
  {
    var text := head + [sep] + tail;
    if head == "" {
      assert text[0] == sep && text[1..] == tail;
    } else {
      assert head == [head[0]] + head[1..];
      assert text[0] == head[0] && text[1..] == head[1..] + [sep] + tail;
      SplitFirst(head[1..], sep, tail);
    }
  }

  /** Splitting undoes joining parts that are free of the separator. */
  lemma {:induction false} SplitJoin(parts: seq<string>, sep: char)
    requires parts != [] && forall i | 0 <= i < |parts| :: sep !in parts[i]
    ensures Split(Join(parts, sep), sep) == parts
  {
    if |parts| == 1 {
      SplitSingle(parts[0], sep);
    } else {
      SplitJoin(parts[1..], sep);
      SplitFirst(parts[0], sep, Join(parts[1..], sep));
      assert parts == [parts[0]] + parts[1..];
    }
  }

  /** ... and joining undoes splitting. */
  lemma {:induction false} JoinSplit(text: string, sep: char)
    ensures Join(Split(text, sep), sep) == text
  {
    if text != "" {
      var rest := Split(text[1..], sep);
      JoinSplit(text[1..], sep);
      assert text == [text[0]] + text[1..];
      if text[0] == sep {
        assert ([""] + rest)[1..] == rest;
      } else {
        assert ([[text[0]] + rest[0]] + rest[1..])[1..] == rest[1..];
      }
    }
  }

  /** text.split() only cuts: every character is a separator or in a part. */
  lemma {:induction false} SplitCovers(text: string, sep: char, k: nat)
    requires k < |text| && text[k] != sep
    ensures exists p | p in Split(text, sep) :: text[k] in p
  {
    var rest := Split(text[1..], sep);
    if k > 0 {
      SplitCovers(text[1..], sep, k - 1);
      var p :| p in rest && text[k] in p;
      if p == rest[0] && text[0] != sep {
        assert text[k] in [text[0]] + rest[0];
        assert Split(text, sep)[0] == [text[0]] + rest[0];
      } else {
        assert rest == [rest[0]] + rest[1..];
        assert p in Split(text, sep);
      }
    } else {
      assert text[0] in Split(text, sep)[0];
    }
  }

  lemma {:induction false} SplitFree(text: string, sep: char)
    ensures forall i | 0 <= i < |Split(text, sep)| :: sep !in Split(text, sep)[i]
  {
    if text != "" {
      SplitFree(text[1..], sep);
      var rest := Split(text[1..], sep);
      if text[0] != sep { assert sep !in [text[0]] + rest[0]; }
    }
  }

  /** Every part was there before the split, and the first one in front. */
  lemma {:induction false} SplitInside(text: string, sep: char)
    ensures IsPrefix(Split(text, sep)[0], text)
    ensures forall i | 0 <= i < |Split(text, sep)| :: Contains(text, Split(text, sep)[i])
  {
    var parts := Split(text, sep);
    if text != "" {
      var rest := Split(text[1..], sep);
      SplitInside(text[1..], sep);
      assert text == [text[0]] + text[1..];
      forall i | 0 < i < |parts| ensures Contains(text, parts[i]) {
        assert parts[i] == (if text[0] == sep then rest[i - 1] else rest[i]);
        ContainsMore([text[0]], text[1..], parts[i]);
      }
    }
    assert OccursAt(text, parts[0], 0);
  }

  /** A word free of the separator lies within one of the joined parts. */
  lemma {:induction false} WithinOnePart(parts: seq<string>, sep: char, word: string)
    requires parts != [] && sep !in word && Contains(Join(parts, sep), word)
    ensures exists p | p in parts :: Contains(p, word)
  {
    if |parts| == 1 {
      assert parts[0] in parts;
    } else {
      var first, rest := parts[0], Join(parts[1..], sep);
      var at :| 0 <= at <= |first + [sep] + rest| - |word| && OccursAt(first + [sep] + rest, word, at);
      SplitOccurrence(first, sep, rest, word, at);
      if !Contains(first, word) {
        WithinOnePart(parts[1..], sep, word);
        var p :| p in parts[1..] && Contains(p, word);
        assert p in parts;
      } else {
        assert parts[0] in parts;
      }
    }
  }

  lemma SplitOccurrence(first: string, sep: char, rest: string, word: string, at: int)
    requires OccursAt(first + [sep] + rest, word, at) && sep !in word
    ensures Contains(first, word) || Contains(rest, word)
  {
    var text := first + [sep] + rest;
    CrossingHasSeparator(first, sep, rest, word, at);
    if at + |word| <= |first| {
      assert first[at..at + |word|] == text[at..at + |word|];
      assert OccursAt(first, word, at);
    } else {
      var k := at - |first| - 1;
      assert rest[k..k + |word|] == text[at..at + |word|];
      assert OccursAt(rest, word, k);
    }
  }

  lemma CrossingHasSeparator(first: string, sep: char, rest: string, word: string, at: int)
    requires OccursAt(first + [sep] + rest, word, at)
    ensures at <= |first| < at + |word| ==> sep in word
  {
    var text := first + [sep] + rest;
    if at <= |first| < at + |word| {
      assert text[at..at + |word|][|first| - at] == text[|first|] == sep;
      assert word[|first| - at] == sep;
    }
  }

  // ---- replacing ----

  /** text.replace(word, with): leftmost occurrences that do not overlap. */
  function Replace(text: string, word: string, with: string): string
    requires word != ""
  {
    if |text| < |word| then text
    else if text[..|word|] == word then with + Replace(text[|word|..], word, with)
    else [text[0]] + Replace(text[1..], word, with)
  }
}
