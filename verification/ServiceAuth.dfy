/** packages/shared/src/service-auth.ts: the canonical form and the framing of a
    sig1-signed request. Text is held as its UTF-8 bytes, one char per byte. */
module ServiceAuth {
  import opened Text
  import opened Sorting

  predicate IsByte(c: char) { c as int < 256 }

  predicate IsBytes(s: string) { forall i | 0 <= i < |s| :: IsByte(s[i]) }

  // ---- percent encoding (section 2.1 of RFC 3986) ----

  /** What encodeURIComponent leaves alone. */
  predicate Unreserved(c: char) {
    || IsDigit(c) || 'A' <= c <= 'Z' || 'a' <= c <= 'z'
    || c == '-' || c == '_' || c == '.' || c == '!' || c == '~' || c == '*' || c == '\'' || c == '(' || c == ')'
  }

  function HexDigit(n: int): (c: char)
    requires 0 <= n < 16
    ensures Unreserved(c)
  {
    if n < 10 then (n + '0' as int) as char else (n - 10 + 'A' as int) as char
  }

  function HexValue(c: char): (n: int)
    ensures -1 <= n < 16
  {
    if IsDigit(c) then c as int - '0' as int
    else if 'A' <= c <= 'F' then c as int - 'A' as int + 10
    else if 'a' <= c <= 'f' then c as int - 'a' as int + 10
    else -1
  }

  function EncodeByte(c: char): string
    requires IsByte(c)
  {
    if Unreserved(c) then [c] else ['%', HexDigit(c as int / 16), HexDigit(c as int % 16)]
  }

  function Encode(s: string): string
    requires IsBytes(s)
  {
    if s == "" then "" else EncodeByte(s[0]) + Encode(s[1..])
  }

  /** The decoding of a name or value of a form-encoded query. */
  function Decode(s: string): string {
    if s == "" then ""
    else if s[0] == '+' then " " + Decode(s[1..])
    else if s[0] == '%' && |s| >= 3 && HexValue(s[1]) >= 0 && HexValue(s[2]) >= 0 then
      [(HexValue(s[1]) * 16 + HexValue(s[2])) as char] + Decode(s[3..])
    else [s[0]] + Decode(s[1..])
  }

  lemma HexRoundTrip(n: int)
    requires 0 <= n < 16
    ensures HexValue(HexDigit(n)) == n
  {
  }

  lemma DecodeByte(c: char, rest: string)
    requires IsByte(c)
    ensures Decode(EncodeByte(c) + rest) == [c] + Decode(rest)
  {
    var s := EncodeByte(c) + rest;
    if Unreserved(c) {
      assert s[0] == c && s[1..] == rest;
    } else {
      HexRoundTrip(c as int / 16);
      HexRoundTrip(c as int % 16);
      assert s[0] == '%' && s[1] == HexDigit(c as int / 16) && s[2] == HexDigit(c as int % 16) && s[3..] == rest;
    }
  }

  lemma {:induction false} DecodeEncode(s: string)
    requires IsBytes(s)
    ensures Decode(Encode(s)) == s
  {
    if s != "" {
      DecodeByte(s[0], Encode(s[1..]));
      DecodeEncode(s[1..]);
    }
  }

  predicate EncodedChar(c: char) { Unreserved(c) || c == '%' }

  predicate IsEncoded(s: string) { forall i | 0 <= i < |s| :: EncodedChar(s[i]) }

  lemma {:induction false} EncodeShape(s: string)
    requires IsBytes(s)
    ensures IsEncoded(Encode(s))
  {
    if s != "" { EncodeShape(s[1..]); }
  }

  lemma {:induction false} DecodeBytes(s: string)
    requires IsBytes(s)
    ensures IsBytes(Decode(s))
    decreases |s|
  {
    if s != "" {
      DecodeBytes(s[1..]);
      if |s| >= 3 { DecodeBytes(s[3..]); }
    }
  }

  // ---- query strings ----

  datatype Entry = Entry(key: string, value: string)

  predicate ByteEntry(e: Entry) { IsBytes(e.key) && IsBytes(e.value) }

  predicate ByteEntries(es: seq<Entry>) { forall i | 0 <= i < |es| :: ByteEntry(es[i]) }

  function UpTo(s: string, c: char): string { if s == "" || s[0] == c then "" else [s[0]] + UpTo(s[1..], c) }

  function Beyond(s: string, c: char): string {
    if s == "" then "" else if s[0] == c then s[1..] else Beyond(s[1..], c)
  }

  /** name=value; without an equals sign the value is empty. */
  function ParsePart(part: string): Entry { Entry(Decode(UpTo(part, '=')), Decode(Beyond(part, '='))) }

  function ParseParts(parts: seq<string>): seq<Entry> {
    if parts == [] then []
    else (if parts[0] == "" then [] else [ParsePart(parts[0])]) + ParseParts(parts[1..])
  }

  /** new URLSearchParams(search).entries() */
  function ParseQuery(search: string): seq<Entry> {
    ParseParts(Split(if search != "" && search[0] == '?' then search[1..] else search, '&'))
  }

  function SortKey(e: Entry): string { e.key + "\0" + e.value }

  predicate EntryLe(a: Entry, b: Entry) { LexLe(Codes(SortKey(a)), Codes(SortKey(b))) }

  method CompareUtf8Bytes(a: string, b: string) returns (r: int)
    ensures r <= 0 <==> LexLe(Codes(a), Codes(b))
    ensures r == 0 <==> a == b
  {
    var len := if |a| < |b| then |a| else |b|;
    for i := 0 to len
      invariant a[..i] == b[..i]
      invariant LexLe(Codes(a), Codes(b)) <==> LexLe(Codes(a)[i..], Codes(b)[i..])
    {
      if a[i] != b[i] { return a[i] as int - b[i] as int; }
      assert a[..i + 1] == a[..i] + [a[i]] && b[..i + 1] == b[..i] + [b[i]];
    }
    assert a[..len] == b[..len];
    assert |a| == |b| ==> a == b;
    r := |a| - |b|;
  }

  function RenderEntry(e: Entry): string
    requires ByteEntry(e)
  {
    Encode(e.key) + "=" + Encode(e.value)
  }

  function RenderAll(es: seq<Entry>): seq<string>
    requires ByteEntries(es)
  {
    seq(|es|, i requires 0 <= i < |es| => RenderEntry(es[i]))
  }

  function Render(es: seq<Entry>): string
    requires ByteEntries(es)
  {
    Join(RenderAll(es), '&')
  }

  lemma {:induction false} ParsePartsBytes(parts: seq<string>)
    requires forall i | 0 <= i < |parts| :: IsBytes(parts[i])
    ensures ByteEntries(ParseParts(parts))
  {
    if parts != [] {
      ParsePartsBytes(parts[1..]);
      CutBytes(parts[0], '=');
      DecodeBytes(UpTo(parts[0], '='));
      DecodeBytes(Beyond(parts[0], '='));
    }
  }

  lemma {:induction false} CutBytes(s: string, c: char)
    requires IsBytes(s)
    ensures IsBytes(UpTo(s, c)) && IsBytes(Beyond(s, c))
  {
    if s != "" { CutBytes(s[1..], c); }
  }

  lemma {:induction false} SplitBytes(s: string, sep: char)
    requires IsBytes(s)
    ensures forall i | 0 <= i < |Split(s, sep)| :: IsBytes(Split(s, sep)[i])
  {
    if s != "" { SplitBytes(s[1..], sep); }
  }

  lemma ParseQueryBytes(search: string)
    requires IsBytes(search)
    ensures ByteEntries(ParseQuery(search))
  {
    var body := if search != "" && search[0] == '?' then search[1..] else search;
    SplitBytes(body, '&');
    ParsePartsBytes(Split(body, '&'));
  }

  lemma SortBytes(es: seq<Entry>)
    requires ByteEntries(es)
    ensures ByteEntries(SortBy(es, EntryLe))
  {
    SortIsPermutation(es, EntryLe);
    forall i | 0 <= i < |SortBy(es, EntryLe)| ensures ByteEntry(SortBy(es, EntryLe)[i]) {
      assert SortBy(es, EntryLe)[i] in es;
    }
  }

  function CanonicalEntries(es: seq<Entry>): string
    requires ByteEntries(es)
  {
    SortBytes(es);
    Render(SortBy(es, EntryLe))
  }

  function CanonicalizeQuery(search: string): string
    requires IsBytes(search)
  {
    ParseQueryBytes(search);
    CanonicalEntries(ParseQuery(search))
  }

  // ---- rendering is parsed back ----

  lemma {:induction false} CutAt(head: string, c: char, tail: string)
    requires c !in head
    ensures UpTo(head + [c] + tail, c) == head && Beyond(head + [c] + tail, c) == tail
  {
    var s := head + [c] + tail;
    if head == "" {
      assert s[0] == c && s[1..] == tail;
    } else {
      assert head == [head[0]] + head[1..];
      assert s[0] == head[0] && s[1..] == head[1..] + [c] + tail;
      CutAt(head[1..], c, tail);
    }
  }

  lemma EncodedFree(s: string, c: char)
    requires IsBytes(s) && !EncodedChar(c)
    ensures c !in Encode(s)
  {
    EncodeShape(s);
  }

  lemma RenderedEntry(e: Entry)
    requires ByteEntry(e)
    ensures '&' !in RenderEntry(e) && '\n' !in RenderEntry(e) && RenderEntry(e) != ""
    ensures RenderEntry(e)[0] != '?'
    ensures ParsePart(RenderEntry(e)) == e
  {
    EncodedFree(e.key, '&'); EncodedFree(e.value, '&');
    EncodedFree(e.key, '\n'); EncodedFree(e.value, '\n');
    EncodedFree(e.key, '='); EncodedFree(e.key, '?');
    CutAt(Encode(e.key), '=', Encode(e.value));
    DecodeEncode(e.key);
    DecodeEncode(e.value);
    var k := Encode(e.key);
    assert k != "" ==> RenderEntry(e)[0] == k[0] && k[0] in k;
  }

  lemma RenderAllCons(es: seq<Entry>)
    requires ByteEntries(es) && es != []
    ensures RenderAll(es)[0] == RenderEntry(es[0]) && RenderAll(es)[1..] == RenderAll(es[1..])
  {
  }

  lemma ParsePartsCons(parts: seq<string>)
    requires parts != [] && parts[0] != ""
    ensures ParseParts(parts) == [ParsePart(parts[0])] + ParseParts(parts[1..])
  {
  }

  lemma {:induction false} PartsOfRendered(es: seq<Entry>)
    requires ByteEntries(es)
    ensures ParseParts(RenderAll(es)) == es
  {
    if es != [] {
      RenderedEntry(es[0]);
      PartsOfRendered(es[1..]);
      RenderAllCons(es);
      ParsePartsCons(RenderAll(es));
      assert es == [es[0]] + es[1..];
    }
  }

  lemma NoQuestionMark(es: seq<Entry>)
    requires ByteEntries(es)
    ensures Render(es) == "" || Render(es)[0] != '?'
  {
    if es != [] { RenderedEntry(es[0]); }
  }

  /** Parsing undoes rendering, for every list of entries. */
  lemma ParseRendered(es: seq<Entry>)
    requires ByteEntries(es)
    ensures ParseQuery(Render(es)) == es
  {
    NoQuestionMark(es);
    if es == [] {
      assert Split("", '&') == [""];
      assert ParseParts([""]) == [] + ParseParts([""][1..]);
    } else {
      forall i | 0 <= i < |es| ensures '&' !in RenderAll(es)[i] { RenderedEntry(es[i]); }
      SplitJoin(RenderAll(es), '&');
      PartsOfRendered(es);
    }
  }

  // ---- the canonical form is canonical ----

  lemma EntryLeOrders()
    ensures TotalPreorder(EntryLe)
  {
    forall a: Entry, b: Entry ensures EntryLe(a, b) || EntryLe(b, a) {
      LexTotal(Codes(SortKey(a)), Codes(SortKey(b)));
    }
    forall a: Entry, b: Entry, c: Entry | EntryLe(a, b) && EntryLe(b, c) ensures EntryLe(a, c) {
      LexTransitive(Codes(SortKey(a)), Codes(SortKey(b)), Codes(SortKey(c)));
    }
  }

  /** The comparator cannot tell two entries apart exactly when their keys sort alike. */
  lemma TiesShareSortKey(a: Entry, b: Entry)
    ensures EntryLe(a, b) && EntryLe(b, a) <==> SortKey(a) == SortKey(b)
  {
    LexTotal(Codes(SortKey(a)), Codes(SortKey(b)));
    if EntryLe(a, b) && EntryLe(b, a) { StringAntisymmetric(SortKey(a), SortKey(b)); }
  }

  lemma {:induction false} SortKeyTellsApart(a: Entry, b: Entry)
    requires '\0' !in a.key && '\0' !in b.key && SortKey(a) == SortKey(b)
    ensures a == b
  {
    CutAt(a.key, '\0', a.value);
    CutAt(b.key, '\0', b.value);
  }

  /** No two different entries have the same sort key. */
  ghost predicate NoTies(es: seq<Entry>) {
    forall a, b | a in es && b in es && SortKey(a) == SortKey(b) :: a == b
  }

  /** Keys free of NUL never tie. */
  lemma NulFreeHasNoTies(es: seq<Entry>)
    requires forall e | e in es :: '\0' !in e.key
    ensures NoTies(es)
  {
    forall a, b | a in es && b in es && SortKey(a) == SortKey(b) ensures a == b { SortKeyTellsApart(a, b); }
  }

  lemma SameEntriesSameForm(a: seq<Entry>, b: seq<Entry>)
    requires ByteEntries(a) && ByteEntries(b) && NoTies(a) && multiset(a) == multiset(b)
    ensures CanonicalEntries(a) == CanonicalEntries(b)
  {
    EntryLeOrders();
    forall x, y | x in a && y in a && EntryLe(x, y) && EntryLe(y, x) ensures x == y {
      TiesShareSortKey(x, y);
    }
    SameSort(a, b, EntryLe);
  }

  /** The form determines the sorted entries, with no condition on the keys. */
  lemma FormDeterminesSort(a: seq<Entry>, b: seq<Entry>)
    requires ByteEntries(a) && ByteEntries(b) && CanonicalEntries(a) == CanonicalEntries(b)
    ensures SortBy(a, EntryLe) == SortBy(b, EntryLe) && multiset(a) == multiset(b)
  {
    SortBytes(a); SortBytes(b);
    ParseRendered(SortBy(a, EntryLe));
    ParseRendered(SortBy(b, EntryLe));
    SortIsPermutation(a, EntryLe); SortIsPermutation(b, EntryLe);
  }

  /** Two queries, one of them without ties, have the same canonical string if and
      only if their decoded entries are the same multiset. */
  lemma CanonicalIff(q1: string, q2: string)
    requires IsBytes(q1) && IsBytes(q2) && NoTies(ParseQuery(q1))
    ensures CanonicalizeQuery(q1) == CanonicalizeQuery(q2) <==> multiset(ParseQuery(q1)) == multiset(ParseQuery(q2))
  {
    ParseQueryBytes(q1); ParseQueryBytes(q2);
    if multiset(ParseQuery(q1)) == multiset(ParseQuery(q2)) {
      SameEntriesSameForm(ParseQuery(q1), ParseQuery(q2));
    } else if CanonicalizeQuery(q1) == CanonicalizeQuery(q2) {
      FormDeterminesSort(ParseQuery(q1), ParseQuery(q2));
    }
  }

  lemma {:induction false} SortOfSorted(es: seq<Entry>)
    requires Sorted(es, EntryLe)
    ensures SortBy(es, EntryLe) == es
  {
    if es != [] {
      SortedTail(es, EntryLe);
      SortOfSorted(es[1..]);
      assert es == [es[0]] + es[1..];
      if |es| > 1 { assert EntryLe(es[0], es[1]); }
    }
  }

  predicate FormChar(c: char) { EncodedChar(c) || c == '=' || c == '&' }

  predicate IsForm(s: string) { forall i | 0 <= i < |s| :: FormChar(s[i]) }

  lemma {:induction false} JoinShape(parts: seq<string>)
    requires forall i | 0 <= i < |parts| :: IsForm(parts[i])
    ensures IsForm(Join(parts, '&'))
  {
    if |parts| > 1 { JoinShape(parts[1..]); }
  }

  lemma RenderShape(es: seq<Entry>)
    requires ByteEntries(es)
    ensures IsForm(Render(es))
  {
    forall i | 0 <= i < |es| ensures IsForm(RenderAll(es)[i]) {
      EncodeShape(es[i].key);
      EncodeShape(es[i].value);
    }
    JoinShape(RenderAll(es));
  }

  lemma FormFacts(s: string)
    requires IsForm(s)
    ensures IsBytes(s) && '\n' !in s
  {
  }

  lemma CanonicalShape(search: string)
    requires IsBytes(search)
    ensures IsBytes(CanonicalizeQuery(search)) && '\n' !in CanonicalizeQuery(search)
  {
    ParseQueryBytes(search);
    SortBytes(ParseQuery(search));
    RenderShape(SortBy(ParseQuery(search), EntryLe));
    FormFacts(CanonicalizeQuery(search));
  }

  /** A canonical string is its own canonical form. */
  lemma CanonicalTwice(search: string)
    requires IsBytes(search)
    ensures IsBytes(CanonicalizeQuery(search))
    ensures CanonicalizeQuery(CanonicalizeQuery(search)) == CanonicalizeQuery(search)
  {
    CanonicalShape(search);
    ParseQueryBytes(search);
    var es := SortBy(ParseQuery(search), EntryLe);
    SortBytes(ParseQuery(search));
    EntryLeOrders();
    SortSorts(ParseQuery(search), EntryLe);
    ParseRendered(es);
    SortOfSorted(es);
  }

  // ---- exactly when the order of parameters does not matter ----

  ghost predicate OrderBlind(es: seq<Entry>)
    requires ByteEntries(es)
  {
    forall other | multiset(other) == multiset(es) && ByteEntries(other) ::
      CanonicalEntries(other) == CanonicalEntries(es)
  }

  lemma MovedFront(es: seq<Entry>, x: Entry, y: Entry) returns (rest: seq<Entry>)
    requires x in es && y in es && x != y
    ensures multiset([x, y] + rest) == multiset(es) && multiset([y, x] + rest) == multiset(es)
  {
    var once := Without(es, x);
    assert y in multiset(es);
    assert y in multiset(once);
    rest := Without(once, y);
    assert multiset([x, y] + rest) == multiset{x} + multiset{y} + multiset(rest);
    assert multiset([y, x] + rest) == multiset{x} + multiset{y} + multiset(rest);
  }

  lemma Without(es: seq<Entry>, x: Entry) returns (rest: seq<Entry>)
    requires x in es
    ensures multiset(es) == multiset{x} + multiset(rest)
  {
    var i :| 0 <= i < |es| && es[i] == x;
    RemoveAt(es, i);
    rest := es[..i] + es[i + 1..];
    assert x in multiset(es);
  }

  lemma SameMembersBytes(es: seq<Entry>, other: seq<Entry>)
    requires ByteEntries(es) && multiset(other) == multiset(es)
    ensures ByteEntries(other)
  {
    forall i | 0 <= i < |other| ensures ByteEntry(other[i]) {
      assert other[i] in multiset(other);
      assert other[i] in es;
    }
  }

  /** Two tied entries in front come out in the order they went in. */
  lemma TiesKeepOrder(x: Entry, y: Entry, rest: seq<Entry>, pivot: Entry)
    requires SortKey(x) == SortKey(y) == SortKey(pivot)
    ensures Filter(SortBy([x, y] + rest, EntryLe), Alike(EntryLe, pivot))
            == [x, y] + Filter(rest, Alike(EntryLe, pivot))
  {
    EntryLeOrders();
    SortIsStable([x, y] + rest, EntryLe, pivot);
    TiesShareSortKey(x, pivot); TiesShareSortKey(y, pivot);
    FilterConcat([x, y], rest, Alike(EntryLe, pivot));
    FilterAll([x, y], Alike(EntryLe, pivot));
  }

  lemma SwappedTiesDiffer(x: Entry, y: Entry, rest: seq<Entry>)
    requires SortKey(x) == SortKey(y) && x != y
    ensures SortBy([x, y] + rest, EntryLe) != SortBy([y, x] + rest, EntryLe)
  {
    TiesKeepOrder(x, y, rest, x);
    TiesKeepOrder(y, x, rest, x);
    var others := Filter(rest, Alike(EntryLe, x));
    assert ([x, y] + others)[0] == x && ([y, x] + others)[0] == y;
  }

  lemma TieShows(es: seq<Entry>, x: Entry, y: Entry)
    requires ByteEntries(es) && x in es && y in es && SortKey(x) == SortKey(y) && x != y
    ensures !OrderBlind(es)
  {
    var rest := MovedFront(es, x, y);
    var one, two := [x, y] + rest, [y, x] + rest;
    SwappedTiesDiffer(x, y, rest);
    SameMembersBytes(es, one);
    SameMembersBytes(es, two);
    if CanonicalEntries(one) == CanonicalEntries(two) { FormDeterminesSort(one, two); }
  }

  /** Every order of the same entries gives the same canonical string if and only
      if no two different entries share key, NUL and value run together. */
  lemma OrderBlindIff(es: seq<Entry>)
    requires ByteEntries(es)
    ensures OrderBlind(es) <==> NoTies(es)
  {
    if NoTies(es) {
      forall other | multiset(other) == multiset(es) && ByteEntries(other)
        ensures CanonicalEntries(other) == CanonicalEntries(es)
      {
        SameEntriesSameForm(es, other);
      }
    } else {
      var x, y :| x in es && y in es && SortKey(x) == SortKey(y) && x != y;
      TieShows(es, x, y);
    }
  }

  ghost predicate QueryOrderBlind(q: string)
    requires IsBytes(q)
  {
    forall other | IsBytes(other) && multiset(ParseQuery(other)) == multiset(ParseQuery(q)) ::
      CanonicalizeQuery(other) == CanonicalizeQuery(q)
  }

  lemma RenderedQuery(es: seq<Entry>)
    requires ByteEntries(es)
    ensures IsBytes(Render(es)) && ParseQuery(Render(es)) == es && CanonicalizeQuery(Render(es)) == CanonicalEntries(es)
  {
    RenderShape(es);
    FormFacts(Render(es));
    ParseRendered(es);
  }

  /** The same for queries as they are sent: all queries with these parameters are
      signed alike if and only if no two different parameters tie. */
  lemma QueryOrderBlindIff(q: string)
    requires IsBytes(q)
    ensures QueryOrderBlind(q) <==> NoTies(ParseQuery(q))
  {
    var es := ParseQuery(q);
    ParseQueryBytes(q);
    OrderBlindIff(es);
    if NoTies(es) {
      forall other | IsBytes(other) && multiset(ParseQuery(other)) == multiset(es)
        ensures CanonicalizeQuery(other) == CanonicalizeQuery(q)
      {
        ParseQueryBytes(other);
      }
    } else {
      var other :| multiset(other) == multiset(es) && ByteEntries(other)
        && CanonicalEntries(other) != CanonicalEntries(es);
      RenderedQuery(other);
    }
  }

  lemma JoinPair(a: string, b: string)
    ensures Join([a, b], '&') == a + "&" + b
  {
    assert [a, b][1..] == [b];
    assert Join([b], '&') == b;
  }

  lemma QueryOfPair(x: Entry, y: Entry)
    requires ByteEntry(x) && ByteEntry(y)
    ensures var q := RenderEntry(x) + "&" + RenderEntry(y);
            && ByteEntries([x, y]) && IsBytes(q)
            && ParseQuery(q) == [x, y] && CanonicalizeQuery(q) == CanonicalEntries([x, y])
  {
    assert RenderAll([x, y]) == [RenderEntry(x), RenderEntry(y)];
    JoinPair(RenderEntry(x), RenderEntry(y));
    RenderedQuery([x, y]);
  }

  lemma TiedFormsDiffer(x: Entry, y: Entry)
    requires ByteEntry(x) && ByteEntry(y) && SortKey(x) == SortKey(y) && x != y
    ensures ByteEntries([x, y]) && ByteEntries([y, x]) && CanonicalEntries([x, y]) != CanonicalEntries([y, x])
  {
    SwappedTiesDiffer(x, y, []);
    EmptyConcat([x, y]); EmptyConcat([y, x]);
    if CanonicalEntries([x, y]) == CanonicalEntries([y, x]) { FormDeterminesSort([x, y], [y, x]); }
  }

  /** Two tied entries, sent in either order, decode alike and are signed apart. */
  lemma TiedQueriesDiffer(x: Entry, y: Entry)
    requires ByteEntry(x) && ByteEntry(y) && SortKey(x) == SortKey(y) && x != y
    ensures var q1, q2 := RenderEntry(x) + "&" + RenderEntry(y), RenderEntry(y) + "&" + RenderEntry(x);
            && IsBytes(q1) && IsBytes(q2)
            && multiset(ParseQuery(q1)) == multiset(ParseQuery(q2)) && CanonicalizeQuery(q1) != CanonicalizeQuery(q2)
  {
    QueryOfPair(x, y);
    QueryOfPair(y, x);
    TiedFormsDiffer(x, y);
  }

  lemma RenderedTie()
    ensures RenderEntry(Entry("a\0b", "c")) == "a%00b=c" && RenderEntry(Entry("a", "b\0c")) == "a=b%00c"
    ensures SortKey(Entry("a\0b", "c")) == SortKey(Entry("a", "b\0c"))
  {
    assert Encode("c") == "c" && Encode("b\0c") == "b%00c" && Encode("a") == "a";
    assert Encode("a\0b") == "a%00b";
  }

  /** With a NUL in a key the order of a query shows through. */
  lemma NulShowsTheOrder()
    ensures var q1, q2 := "a%00b=c&a=b%00c", "a=b%00c&a%00b=c";
            && IsBytes(q1) && IsBytes(q2)
            && multiset(ParseQuery(q1)) == multiset(ParseQuery(q2)) && CanonicalizeQuery(q1) != CanonicalizeQuery(q2)
  {
    var x, y := Entry("a\0b", "c"), Entry("a", "b\0c");
    RenderedTie();
    DifferentKeys();
    JoinedTie();
    TiedQueriesDiffer(x, y);
  }

  lemma DifferentKeys()
    ensures Entry("a\0b", "c") != Entry("a", "b\0c")
  {
    assert |"a\0b"| == 3 && |"a"| == 1;
  }

  lemma JoinedTie()
    ensures "a%00b=c" + "&" + "a=b%00c" == "a%00b=c&a=b%00c" && "a=b%00c" + "&" + "a%00b=c" == "a=b%00c&a%00b=c"
  {
  }

  // ---- the signed request ----

  datatype ServiceName = Web | SlackBot | GithubBot | LinearBot

  function NameOf(service: ServiceName): string {
    match service
    case Web => "web"
    case SlackBot => "slack-bot"
    case GithubBot => "github-bot"
    case LinearBot => "linear-bot"
  }

  function UpperChar(c: char): char { if 'a' <= c <= 'z' then (c as int - 32) as char else c }

  function Upper(s: string): (r: string)
    ensures |r| == |s|
  {
    seq(|s|, i requires 0 <= i < |s| => UpperChar(s[i]))
  }

  /** What buildCanonicalRequestString is given. */
  datatype Signed = Signed(
    service: ServiceName, timestampMs: nat, nonce: string, httpMethod: string, pathname: string,
    canonicalQuery: string, bodySha256Hex: string, actor: string)

  function Line(field: string, rest: string): string { field + "\n" + rest }

  function CanonicalRequest(p: Signed): string {
    Line("sig1", Line(NameOf(p.service), Line(Decimal(p.timestampMs), Line(p.nonce, Line(Upper(p.httpMethod),
      Line(p.pathname, Line(p.canonicalQuery, Line(p.bodySha256Hex, p.actor))))))))
  }

  lemma FirstLine(a: string, x: string, b: string, y: string)
    requires '\n' !in a && '\n' !in b && Line(a, x) == Line(b, y)
    ensures a == b && x == y
  {
    CutAt(a, '\n', x);
    CutAt(b, '\n', y);
  }

  lemma DecimalIsLine(n: nat)
    ensures '\n' !in Decimal(n) && '.' !in Decimal(n)
  {
  }

  lemma DecimalTellsApart(a: nat, b: nat)
    requires Decimal(a) == Decimal(b)
    ensures a == b
  {
    NumeralOfDecimal(a);
    NumeralOfDecimal(b);
  }

  lemma UpperIsLine(s: string)
    requires '\n' !in s
    ensures '\n' !in Upper(s)
  {
  }

  /** All fields but the actor are single lines. */
  predicate SingleLines(p: Signed) {
    '\n' !in p.nonce && '\n' !in p.httpMethod && '\n' !in p.pathname && '\n' !in p.canonicalQuery
      && '\n' !in p.bodySha256Hex
  }

  /** The layout is unambiguous: from the signed text every field can be told, the
      method up to its case. */
  lemma LayoutIsUnambiguous(p: Signed, q: Signed)
    requires SingleLines(p) && SingleLines(q)
    ensures CanonicalRequest(p) == CanonicalRequest(q)
            <==> p.(httpMethod := Upper(p.httpMethod)) == q.(httpMethod := Upper(q.httpMethod))
  {
    var x8, y8 := Line(p.bodySha256Hex, p.actor), Line(q.bodySha256Hex, q.actor);
    var x7, y7 := Line(p.canonicalQuery, x8), Line(q.canonicalQuery, y8);
    var x6, y6 := Line(p.pathname, x7), Line(q.pathname, y7);
    var x5, y5 := Line(Upper(p.httpMethod), x6), Line(Upper(q.httpMethod), y6);
    var x4, y4 := Line(p.nonce, x5), Line(q.nonce, y5);
    var x3, y3 := Line(Decimal(p.timestampMs), x4), Line(Decimal(q.timestampMs), y4);
    var x2, y2 := Line(NameOf(p.service), x3), Line(NameOf(q.service), y3);
    if Line("sig1", x2) == Line("sig1", y2) {
      DecimalIsLine(p.timestampMs); DecimalIsLine(q.timestampMs);
      UpperIsLine(p.httpMethod); UpperIsLine(q.httpMethod);
      FirstLine("sig1", x2, "sig1", y2);
      FirstLine(NameOf(p.service), x3, NameOf(q.service), y3);
      FirstLine(Decimal(p.timestampMs), x4, Decimal(q.timestampMs), y4);
      DecimalTellsApart(p.timestampMs, q.timestampMs);
      FirstLine(p.nonce, x5, q.nonce, y5);
      FirstLine(Upper(p.httpMethod), x6, Upper(q.httpMethod), y6);
      FirstLine(p.pathname, x7, q.pathname, y7);
      FirstLine(p.canonicalQuery, x8, q.canonicalQuery, y8);
      FirstLine(p.bodySha256Hex, p.actor, q.bodySha256Hex, q.actor);
    }
  }

  // ---- the signature header ----

  const TOKEN_VALIDITY_MS := 5 * 60 * 1000

  datatype Failure = Format | Expired | Mismatch

  datatype HeaderParse = Header(timestampMs: nat, nonce: string, signature: string) | Rejected(reason: Failure)

  predicate IsHex(c: char) { IsDigit(c) || 'a' <= c <= 'f' }

  predicate AllHex(s: string) { forall i | 0 <= i < |s| :: IsHex(s[i]) }

  predicate IsNonce(s: string) { 1 <= |s| <= 64 && AllHex(s) }

  predicate IsSignature(s: string) { |s| == 64 && AllHex(s) }

  predicate IsTimestamp(s: string) { 1 <= |s| <= 16 && AllDigits(s) }

  predicate Fresh(timestampMs: nat, now: int) { -TOKEN_VALIDITY_MS <= now - timestampMs <= TOKEN_VALIDITY_MS }

  function ParseHeader(header: string, now: int): HeaderParse {
    var parts := Split(header, '.');
    if |parts| != 4 || parts[0] != "sig1" then Rejected(Format)
    else if !IsTimestamp(parts[1]) then Rejected(Format)
    else if Numeral(parts[1]) <= 0 then Rejected(Format)
    else if !IsNonce(parts[2]) || !IsSignature(parts[3]) then Rejected(Format)
    else if !Fresh(Numeral(parts[1]), now) then Rejected(Expired)
    else Header(Numeral(parts[1]), parts[2], parts[3])
  }

  function HeaderText(timestampMs: nat, nonce: string, signature: string): string {
    Join(["sig1", Decimal(timestampMs), nonce, signature], '.')
  }

  lemma HexIsPlain(s: string)
    requires AllHex(s)
    ensures '.' !in s && '\n' !in s
  {
  }

  lemma TimestampFits(n: nat)
    requires n < 10_000_000_000_000_000
    ensures IsTimestamp(Decimal(n)) && Numeral(Decimal(n)) == n
  {
    PowerOf16();
    DecimalFits(n, 16, Power10(16));
    NumeralOfDecimal(n);
  }

  lemma PowerOf16()
    ensures Power10(16) == 10_000_000_000_000_000
  {
    assert Power10(4) == 10_000;
    assert Power10(8) == 100_000_000;
    assert Power10(12) == 1_000_000_000_000;
  }

  /** A header parses back to what it was built from; only its age can reject it. */
  lemma HeaderRoundTrip(timestampMs: nat, nonce: string, signature: string, now: int)
    requires 0 < timestampMs < 10_000_000_000_000_000 && IsNonce(nonce) && IsSignature(signature)
    ensures ParseHeader(HeaderText(timestampMs, nonce, signature), now) ==
            if Fresh(timestampMs, now) then Header(timestampMs, nonce, signature) else Rejected(Expired)
  {
    var parts := ["sig1", Decimal(timestampMs), nonce, signature];
    DecimalIsLine(timestampMs);
    HexIsPlain(nonce);
    HexIsPlain(signature);
    SplitJoin(parts, '.');
    TimestampFits(timestampMs);
  }

  /** Nothing else is accepted: a parsed header consists of exactly these parts. */
  lemma ParsedHeaderShape(header: string, now: int) returns (digits: string)
    requires ParseHeader(header, now).Header?
    ensures var h := ParseHeader(header, now);
            && header == Join(["sig1", digits, h.nonce, h.signature], '.')
            && IsTimestamp(digits) && Numeral(digits) == h.timestampMs && h.timestampMs > 0
            && IsNonce(h.nonce) && IsSignature(h.signature) && Fresh(h.timestampMs, now)
  {
    var parts := Split(header, '.');
    digits := parts[1];
    JoinSplit(header, '.');
    assert parts == ["sig1", digits, parts[2], parts[3]];
  }

  // ---- signing and verifying ----

  /** A request as either side sees it: the parsed URL, the digest of the body and
      the asserted actor, empty when absent. */
  datatype Request = Request(
    service: ServiceName, httpMethod: string, pathname: string, search: string, bodySha256Hex: string, actor: string)

  /** URL paths, methods and digests are single lines. */
  predicate WellFormed(r: Request) {
    IsBytes(r.search) && '\n' !in r.httpMethod && '\n' !in r.pathname && '\n' !in r.bodySha256Hex
  }

  function SignedFields(r: Request, timestampMs: nat, nonce: string): Signed
    requires WellFormed(r)
  {
    Signed(r.service, timestampMs, nonce, r.httpMethod, r.pathname, CanonicalizeQuery(r.search), r.bodySha256Hex,
      r.actor)
  }

  /** HMAC-SHA256 under one secret, in lowercase hex. */
  ghost predicate IsMac(mac: string -> string) { forall text :: IsSignature(mac(text)) }

  /** The two texts at hand are no collision. */
  predicate Distinguishes(mac: string -> string, a: string, b: string) { mac(a) == mac(b) ==> a == b }

  function Signature(mac: string -> string, r: Request, timestampMs: nat, nonce: string): string
    requires WellFormed(r)
  {
    mac(CanonicalRequest(SignedFields(r, timestampMs, nonce)))
  }

  function SignatureHeader(mac: string -> string, r: Request, timestampMs: nat, nonce: string): string
    requires WellFormed(r)
  {
    HeaderText(timestampMs, nonce, Signature(mac, r, timestampMs, nonce))
  }

  datatype Verdict = Verified(timestampMs: nat, nonce: string) | Refused(reason: Failure)

  function Verify(header: string, mac: string -> string, r: Request, now: int): Verdict
    requires WellFormed(r)
  {
    match ParseHeader(header, now)
    case Rejected(reason) => Refused(reason)
    case Header(timestampMs, nonce, signature) =>
      if signature != Signature(mac, r, timestampMs, nonce) then Refused(Mismatch) else Verified(timestampMs, nonce)
  }

  /** What the signature binds: everything, the method up to case and the query up
      to the order of its parameters. */
  predicate SameRequest(a: Request, b: Request) {
    && a.service == b.service && Upper(a.httpMethod) == Upper(b.httpMethod) && a.pathname == b.pathname
    && multiset(ParseQuery(a.search)) == multiset(ParseQuery(b.search))
    && a.bodySha256Hex == b.bodySha256Hex && a.actor == b.actor
  }

  lemma SignedTextIff(a: Request, b: Request, timestampMs: nat, nonce: string)
    requires WellFormed(a) && WellFormed(b) && NoTies(ParseQuery(a.search)) && IsNonce(nonce)
    ensures SameText(a, b, timestampMs, nonce) <==> SameRequest(a, b)
  {
    CanonicalShape(a.search);
    CanonicalShape(b.search);
    HexIsPlain(nonce);
    LayoutIsUnambiguous(SignedFields(a, timestampMs, nonce), SignedFields(b, timestampMs, nonce));
    CanonicalIff(a.search, b.search);
  }

  ghost predicate SignsEveryOrder(r: Request, timestampMs: nat, nonce: string)
    requires WellFormed(r)
  {
    forall seen | WellFormed(seen) && SameRequest(r, seen) :: SameText(r, seen, timestampMs, nonce)
  }

  ghost predicate SameText(a: Request, b: Request, timestampMs: nat, nonce: string)
    requires WellFormed(a) && WellFormed(b)
  {
    CanonicalRequest(SignedFields(a, timestampMs, nonce)) == CanonicalRequest(SignedFields(b, timestampMs, nonce))
  }

  /** The signed text is one for all requests that differ in parameter order and
      method case only, if and only if the query has no ties. */
  lemma SignsEveryOrderIff(r: Request, timestampMs: nat, nonce: string)
    requires WellFormed(r) && IsNonce(nonce)
    ensures SignsEveryOrder(r, timestampMs, nonce) <==> NoTies(ParseQuery(r.search))
  {
    if NoTies(ParseQuery(r.search)) {
      forall seen | WellFormed(seen) && SameRequest(r, seen) ensures SameText(r, seen, timestampMs, nonce) {
        SignedTextIff(r, seen, timestampMs, nonce);
      }
    } else {
      var other := OtherOrder(r.search);
      OtherQuerySignsApart(r, r.(search := other), timestampMs, nonce);
      assert SameRequest(r, r.(search := other));
    }
  }

  lemma OtherOrder(q: string) returns (other: string)
    requires IsBytes(q) && !NoTies(ParseQuery(q))
    ensures IsBytes(other) && multiset(ParseQuery(other)) == multiset(ParseQuery(q))
            && CanonicalizeQuery(other) != CanonicalizeQuery(q)
  {
    QueryOrderBlindIff(q);
    other :| IsBytes(other) && multiset(ParseQuery(other)) == multiset(ParseQuery(q))
      && CanonicalizeQuery(other) != CanonicalizeQuery(q);
  }

  lemma OtherQuerySignsApart(a: Request, b: Request, timestampMs: nat, nonce: string)
    requires WellFormed(a) && WellFormed(b) && IsNonce(nonce)
             && CanonicalizeQuery(a.search) != CanonicalizeQuery(b.search)
    ensures !SameText(a, b, timestampMs, nonce)
  {
    CanonicalShape(a.search);
    CanonicalShape(b.search);
    HexIsPlain(nonce);
    LayoutIsUnambiguous(SignedFields(a, timestampMs, nonce), SignedFields(b, timestampMs, nonce));
  }

  /** A header signed for one request verifies for exactly the requests that are
      the same up to method case and parameter order, and only inside the window. */
  lemma VerifiesExactlyTheSigned(mac: string -> string, signed: Request, seen: Request, timestampMs: nat, nonce: string,
                                 now: int)
    requires IsMac(mac) && WellFormed(signed) && WellFormed(seen)
    requires Distinguishes(mac, CanonicalRequest(SignedFields(signed, timestampMs, nonce)),
                           CanonicalRequest(SignedFields(seen, timestampMs, nonce)))
    requires NoTies(ParseQuery(signed.search))
    requires 0 < timestampMs < 10_000_000_000_000_000 && IsNonce(nonce)
    ensures Verify(SignatureHeader(mac, signed, timestampMs, nonce), mac, seen, now) ==
            if !Fresh(timestampMs, now) then Refused(Expired)
            else if SameRequest(signed, seen) then Verified(timestampMs, nonce)
            else Refused(Mismatch)
  {
    var signature := Signature(mac, signed, timestampMs, nonce);
    HeaderRoundTrip(timestampMs, nonce, signature, now);
    SignedTextIff(signed, seen, timestampMs, nonce);
  }

  /** Completeness needs nothing of the MAC but its shape. */
  lemma VerifyCompletes(mac: string -> string, signed: Request, seen: Request, timestampMs: nat, nonce: string,
                        now: int)
    requires IsMac(mac) && WellFormed(signed) && WellFormed(seen) && NoTies(ParseQuery(signed.search))
    requires 0 < timestampMs < 10_000_000_000_000_000 && IsNonce(nonce) && Fresh(timestampMs, now)
    requires SameRequest(signed, seen)
    ensures Verify(SignatureHeader(mac, signed, timestampMs, nonce), mac, seen, now) == Verified(timestampMs, nonce)
  {
    HeaderRoundTrip(timestampMs, nonce, Signature(mac, signed, timestampMs, nonce), now);
    SignedTextIff(signed, seen, timestampMs, nonce);
  }

  // ---- the formats, spelled out ----

  const UPPER_HEX := "0123456789ABCDEF"
  const LOWER_HEX := "0123456789abcdef"

  /** A percent escape decodes to its byte, in capitals or not, whatever follows. */
  lemma EscapesDecode(hi: nat, lo: nat, rest: string)
    requires hi < 16 && lo < 16
    ensures var c := (16 * hi + lo) as char;
            && Decode(['%', UPPER_HEX[hi], UPPER_HEX[lo]] + rest) == [c] + Decode(rest)
            && Decode(['%', LOWER_HEX[hi], LOWER_HEX[lo]] + rest) == [c] + Decode(rest)
  {
    HexValues(hi); HexValues(lo);
    assert (['%', UPPER_HEX[hi], UPPER_HEX[lo]] + rest)[3..] == rest;
    assert (['%', LOWER_HEX[hi], LOWER_HEX[lo]] + rest)[3..] == rest;
  }

  lemma HexValues(n: nat)
    requires n < 16
    ensures HexValue(UPPER_HEX[n]) == n && HexValue(LOWER_HEX[n]) == n && HexDigit(n) == UPPER_HEX[n]
  {
  }

  /** A plus sign decodes to a space, as %20 does. */
  lemma PlusIsSpace(rest: string)
    ensures Decode("+" + rest) == " " + Decode(rest) == Decode("%20" + rest)
  {
    assert ("+" + rest)[1..] == rest;
    EscapesDecode(2, 0, rest);
    assert ['%', UPPER_HEX[2], UPPER_HEX[0]] == "%20";
  }

  /** Anything else stands for itself, a percent sign without two digits included. */
  lemma OthersDecode(c: char, rest: string)
    requires c != '+'
    requires c == '%' ==> |rest| < 2 || (rest[0] !in UPPER_HEX + LOWER_HEX) || (rest[1] !in UPPER_HEX + LOWER_HEX)
    ensures Decode([c] + rest) == [c] + Decode(rest)
  {
    assert ([c] + rest)[1..] == rest;
    if |rest| >= 2 {
      HexCharacters(rest[0]);
      HexCharacters(rest[1]);
    }
  }

  lemma HexCharacters(c: char)
    ensures HexValue(c) >= 0 <==> c in UPPER_HEX + LOWER_HEX
  {
    if IsDigit(c) {
      assert UPPER_HEX[c as int - '0' as int] == c;
    } else if 'A' <= c <= 'F' {
      assert UPPER_HEX[c as int - 'A' as int + 10] == c;
    } else if 'a' <= c <= 'f' {
      assert LOWER_HEX[c as int - 'a' as int + 10] == c;
    }
  }

  const MARKS := "-_.!~*'()"

  predicate Kept(c: char) { 'A' <= c <= 'Z' || 'a' <= c <= 'z' || '0' <= c <= '9' || c in MARKS }

  lemma UnreservedIsKept(c: char)
    ensures Unreserved(c) <==> Kept(c)
  {
    assert MARKS[0] == '-' && MARKS[1] == '_' && MARKS[2] == '.' && MARKS[3] == '!' && MARKS[4] == '~';
    assert MARKS[5] == '*' && MARKS[6] == '\'' && MARKS[7] == '(' && MARKS[8] == ')';
  }

  /** encodeURIComponent keeps letters, digits and nine marks, and escapes every other
      byte in capitals. */
  lemma EncodesByteByByte(c: char, rest: string)
    requires IsByte(c) && IsBytes(rest)
    ensures IsBytes([c] + rest)
    ensures Encode([c] + rest) ==
            (if Kept(c) then [c] else ['%', UPPER_HEX[c as int / 16], UPPER_HEX[c as int % 16]]) + Encode(rest)
  {
    UnreservedIsKept(c);
    HexValues(c as int / 16);
    HexValues(c as int % 16);
    assert ([c] + rest)[1..] == rest;
  }

  /** The signed text is nine lines, the actor last. */
  lemma SignedTextIsLines(p: Signed)
    ensures CanonicalRequest(p) ==
            Join(["sig1", NameOf(p.service), Decimal(p.timestampMs), p.nonce, Upper(p.httpMethod), p.pathname,
                  p.canonicalQuery, p.bodySha256Hex, p.actor], '\n')
  {
    var r1 := [p.bodySha256Hex] + [p.actor];
    var r2 := [p.canonicalQuery] + r1;
    var r3 := [p.pathname] + r2;
    var r4 := [Upper(p.httpMethod)] + r3;
    var r5 := [p.nonce] + r4;
    var r6 := [Decimal(p.timestampMs)] + r5;
    var r7 := [NameOf(p.service)] + r6;
    LineJoins(p.bodySha256Hex, [p.actor]); LineJoins(p.canonicalQuery, r1); LineJoins(p.pathname, r2);
    LineJoins(Upper(p.httpMethod), r3); LineJoins(p.nonce, r4); LineJoins(Decimal(p.timestampMs), r5);
    LineJoins(NameOf(p.service), r6); LineJoins("sig1", r7);
    assert Join([p.actor], '\n') == p.actor;
    assert ["sig1"] + r7 == ["sig1", NameOf(p.service), Decimal(p.timestampMs), p.nonce, Upper(p.httpMethod),
                             p.pathname, p.canonicalQuery, p.bodySha256Hex, p.actor];
  }

  lemma LineJoins(field: string, rest: seq<string>)
    requires rest != []
    ensures Join([field] + rest, '\n') == Line(field, Join(rest, '\n'))
  {
    assert ([field] + rest)[1..] == rest;
  }

  /** Five minutes either way. */
  lemma FreshIs(timestampMs: nat, now: int)
    ensures Fresh(timestampMs, now) <==> timestampMs - 300_000 <= now <= timestampMs + 300_000
  {
  }

  /** toUpperCase, on ASCII: each small letter becomes its capital. */
  lemma UpperFolds(s: string, k: nat)
    requires k < |s|
    ensures forall i | 0 <= i < 26 && s[k] == SMALL[i] :: Upper(s)[k] == CAPITALS[i]
    ensures (forall i | 0 <= i < 26 :: s[k] != SMALL[i]) ==> Upper(s)[k] == s[k]
  {
    forall i | 0 <= i < 26 ensures CAPITALS[i] as int == 'A' as int + i && SMALL[i] as int == 'a' as int + i { }
    if 'a' <= s[k] <= 'z' { assert SMALL[s[k] as int - 'a' as int] == s[k]; }
  }

  /** Parameters split at & and =, an empty one counts for nothing, and one without an
      equals sign has an empty value. */
  lemma ParsesParts(key: string, value: string, rest: string)
    requires '&' !in key && '=' !in key && '&' !in value && key != ""
    ensures ParseParts(Split(key + "=" + value + "&" + rest, '&')) ==
            [Entry(Decode(key), Decode(value))] + ParseParts(Split(rest, '&'))
    ensures ParseParts(Split(key + "&" + rest, '&')) == [Entry(Decode(key), "")] + ParseParts(Split(rest, '&'))
    ensures ParseParts(Split("&" + rest, '&')) == ParseParts(Split(rest, '&'))
  {
    var part := key + "=" + value;
    SplitFirst(part, '&', rest); SplitFirst(key, '&', rest); SplitFirst("", '&', rest);
    assert part + ['&'] + rest == key + "=" + value + "&" + rest && key + ['&'] + rest == key + "&" + rest;
    assert "" + ['&'] + rest == "&" + rest;
    FirstPart(part, Split(rest, '&')); FirstPart(key, Split(rest, '&')); FirstPart("", Split(rest, '&'));
    CutAt(key, '=', value);
    assert part == key + ['='] + value;
    NoCut(key, '=');
    EmptyConcat(ParseParts(Split(rest, '&')));
  }

  lemma FirstPart(part: string, parts: seq<string>)
    ensures ParseParts([part] + parts) == (if part == "" then [] else [ParsePart(part)]) + ParseParts(parts)
  {
    assert ([part] + parts)[1..] == parts;
  }

  lemma {:induction false} NoCut(s: string, c: char)
    requires c !in s
    ensures UpTo(s, c) == s && Beyond(s, c) == ""
  {
    if s != "" {
      NoCut(s[1..], c);
      assert s == [s[0]] + s[1..];
    }
  }
}
