/** packages/linear-bot/src/target-resolution.ts: the repository a comment names. */
module Mentions {
  import opened Text

  /** [\w/-] */
  predicate IsPathChar(c: char) {
    'a' <= c <= 'z' || 'A' <= c <= 'Z' || IsDigit(c) || c == '_' || c == '/' || c == '-'
  }

  predicate PathCharAt(text: string, at: int) { 0 <= at < |text| && IsPathChar(text[at]) }

  predicate DotAt(text: string, at: int) { 0 <= at < |text| && text[at] == '.' }

  datatype Direction = Forth | Back

  function Step(index: int, direction: Direction, k: nat): int { if direction == Forth then index + k else index - k }

  /** Walking from index in one direction, over dots only, one comes to a path
      character. */
  ghost predicate Extends(text: string, index: int, direction: Direction) {
    exists k: nat :: ReachesPath(text, index, direction, k)
  }

  ghost predicate ReachesPath(text: string, index: int, direction: Direction, k: nat) {
    PathCharAt(text, Step(index, direction, k)) && forall j: nat | j < k :: DotAt(text, Step(index, direction, j))
  }

  /** A dot is passed over. */
  lemma ExtendsPastDot(text: string, index: int, direction: Direction)
    requires DotAt(text, index)
    ensures Extends(text, index, direction) <==> Extends(text, Step(index, direction, 1), direction)
  {
    var next := Step(index, direction, 1);
    if Extends(text, index, direction) {
      var k: nat :| ReachesPath(text, index, direction, k);
      assert k > 0 && Step(index, direction, 0) == index;
      forall j: nat | j < k - 1 ensures DotAt(text, Step(next, direction, j)) {
        assert DotAt(text, Step(index, direction, j + 1));
      }
      assert ReachesPath(text, next, direction, k - 1);
    }
    if Extends(text, next, direction) {
      var k: nat :| ReachesPath(text, next, direction, k);
      forall j: nat | j < k + 1 ensures DotAt(text, Step(index, direction, j)) {
        if j > 0 { assert DotAt(text, Step(next, direction, j - 1)); }
      }
      assert ReachesPath(text, index, direction, k + 1);
    }
  }

  lemma ExtendsHere(text: string, index: int, direction: Direction)
    requires !DotAt(text, index)
    ensures Extends(text, index, direction) <==> PathCharAt(text, index)
  {
    assert Step(index, direction, 0) == index;
    if PathCharAt(text, index) { assert ReachesPath(text, index, direction, 0); }
  }

  method ExtendsRepositoryPath(text: string, index: int, direction: Direction) returns (b: bool)
    ensures b == Extends(text, index, direction)
  {
    if PathCharAt(text, index) || !DotAt(text, index) {
      ExtendsHere(text, index, direction);
      return PathCharAt(text, index);
    }
    var cursor := Step(index, direction, 1);
    ExtendsPastDot(text, index, direction);
    while DotAt(text, cursor)
      invariant Extends(text, cursor, direction) <==> Extends(text, index, direction)
      decreases if direction == Forth then |text| - cursor else cursor
    {
      ExtendsPastDot(text, cursor, direction);
      cursor := Step(cursor, direction, 1);
    }
    ExtendsHere(text, cursor, direction);
    b := PathCharAt(text, cursor);
  }

  // ---- accepted occurrences ----

  /** The name occurs here and neither neighbour extends it. */
  ghost predicate Guarded(text: string, name: string, at: int) {
    OccursAt(text, name, at) && !Extends(text, at - 1, Back) && !Extends(text, at + |name|, Forth)
  }

  ghost predicate Named(text: string, name: string) { exists at :: Guarded(text, name, at) }

  /** text.indexOf(name, from) */
  function IndexOf(text: string, name: string, from: nat): (at: int)
    ensures at == -1 || (from <= at && OccursAt(text, name, at))
    ensures forall i | from <= i && OccursAt(text, name, i) :: at != -1 && at <= i
    decreases |text| - from
  {
    if from + |name| > |text| then -1
    else if OccursAt(text, name, from) then from
    else IndexOf(text, name, from + 1)
  }

  /** For the empty name the search would never pass the end of the text. */
  method IsNamed(text: string, name: string) returns (b: bool)
    requires name != ""
    ensures b == Named(text, name)
  {
    var at := IndexOf(text, name, 0);
    while at != -1
      invariant at == -1 || (0 <= at && OccursAt(text, name, at))
      invariant forall i | 0 <= i && (at == -1 || i < at) :: !Guarded(text, name, i)
      decreases if at == -1 then 0 else |text| + 1 - at
    {
      var beforeExtends := ExtendsRepositoryPath(text, at - 1, Back);
      var afterExtends := ExtendsRepositoryPath(text, at + |name|, Forth);
      if !beforeExtends && !afterExtends {
        assert Guarded(text, name, at);
        return true;
      }
      at := IndexOf(text, name, at + 1);
    }
    b := false;
  }

  // ---- the matcher ----

  datatype RepoConfig = RepoConfig(fullName: string, id: string)

  ghost predicate Mentioned(text: string, repo: RepoConfig) { Named(Lower(text), Lower(repo.fullName)) }

  /** Exactly one list entry is mentioned, and it is this one. */
  ghost predicate OnlyMention(text: string, repos: seq<RepoConfig>, i: int) {
    && 0 <= i < |repos| && Mentioned(text, repos[i])
    && forall j | 0 <= j < |repos| && j != i :: !Mentioned(text, repos[j])
  }

  method MatchExplicitRepo(text: string, repos: seq<RepoConfig>) returns (r: Option<RepoConfig>)
    requires forall i | 0 <= i < |repos| :: repos[i].fullName != ""
    ensures r.Some? ==> exists i :: OnlyMention(text, repos, i) && r.value == repos[i]
    ensures r.None? ==> forall i :: !OnlyMention(text, repos, i)
  {
    var haystack := Lower(text);
    var named: seq<int> := [];
    for k := 0 to |repos|
      invariant forall i | 0 <= i < |named| :: 0 <= named[i] < k && Mentioned(text, repos[named[i]])
      invariant forall i, j | 0 <= i < j < |named| :: named[i] < named[j]
      invariant forall i | 0 <= i < k && Mentioned(text, repos[i]) :: i in named
    {
      var accepted := IsNamed(haystack, Lower(repos[k].fullName));
      if accepted { named := named + [k]; }
    }
    if |named| == 1 {
      assert OnlyMention(text, repos, named[0]);
      r := Some(repos[named[0]]);
    } else {
      if |named| > 1 {
        assert named[0] < named[1];
        forall i ensures !OnlyMention(text, repos, i) { assert i != named[0] || i != named[1]; }
      }
      r := None;
    }
  }

  // ---- accepted occurrences never overlap ----

  predicate IsNameChar(c: char) { IsPathChar(c) || c == '.' }

  /** A repository name: path characters and dots, with no dot at either end. */
  predicate IsRepoName(name: string) {
    && name != "" && IsPathChar(name[0]) && IsPathChar(name[|name| - 1])
    && forall i | 0 <= i < |name| :: IsNameChar(name[i])
  }

  /** From inside a name, walking back comes to a path character. */
  lemma {:induction false} ExtendsBack(text: string, at: int, index: int)
    requires 0 <= at <= index < |text| && IsPathChar(text[at])
    requires forall i | at <= i <= index :: IsNameChar(text[i])
    ensures Extends(text, index, Back)
    decreases index - at
  {
    if IsPathChar(text[index]) {
      ExtendsHere(text, index, Back);
    } else {
      ExtendsBack(text, at, index - 1);
      ExtendsPastDot(text, index, Back);
    }
  }

  lemma {:induction false} ExtendsForth(text: string, index: int, last: int)
    requires 0 <= index <= last < |text| && IsPathChar(text[last])
    requires forall i | index <= i <= last :: IsNameChar(text[i])
    ensures Extends(text, index, Forth)
    decreases last - index
  {
    if IsPathChar(text[index]) {
      ExtendsHere(text, index, Forth);
    } else {
      ExtendsForth(text, index + 1, last);
      ExtendsPastDot(text, index, Forth);
    }
  }

  lemma SpanChars(text: string, name: string, at: int)
    requires OccursAt(text, name, at) && IsRepoName(name)
    ensures IsPathChar(text[at]) && IsPathChar(text[at + |name| - 1])
    ensures forall i | at <= i < at + |name| :: IsNameChar(text[i])
  {
    forall i | 0 <= i < |name| ensures text[at + i] == name[i] { assert text[at..at + |name|][i] == name[i]; }
    forall i | at <= i < at + |name| ensures IsNameChar(text[i]) { assert text[at + (i - at)] == name[i - at]; }
  }

  /** An accepted occurrence starts nowhere inside another occurrence. */
  lemma StartsOutside(text: string, outer: string, a: int, inner: string, b: int)
    requires OccursAt(text, outer, a) && IsRepoName(outer) && Guarded(text, inner, b)
    ensures !(a < b < a + |outer|)
  {
    SpanChars(text, outer, a);
    if a < b < a + |outer| { ExtendsBack(text, a, b - 1); }
  }

  lemma EndsOutside(text: string, outer: string, a: int, inner: string, b: int)
    requires OccursAt(text, outer, a) && IsRepoName(outer) && Guarded(text, inner, b)
    ensures !(a < b + |inner| < a + |outer|)
  {
    SpanChars(text, outer, a);
    if a < b + |inner| < a + |outer| { ExtendsForth(text, b + |inner|, a + |outer| - 1); }
  }

  /** Two accepted occurrences, of the same or of different names, are the same
      span or have no character in common. */
  lemma AcceptedNeverOverlap(text: string, one: string, a: int, two: string, b: int)
    requires IsRepoName(one) && IsRepoName(two) && Guarded(text, one, a) && Guarded(text, two, b)
    ensures (a == b && one == two) || a + |one| <= b || b + |two| <= a
  {
    StartsOutside(text, one, a, two, b);
    StartsOutside(text, two, b, one, a);
    EndsOutside(text, one, a, two, b);
    EndsOutside(text, two, b, one, a);
  }

  // ---- examples ----

  lemma NotExtended(text: string, index: int, direction: Direction)
    requires !PathCharAt(text, index) && !DotAt(text, index)
    ensures !Extends(text, index, direction)
  {
    ExtendsHere(text, index, direction);
  }

  /** A name is mentioned before a full stop or a space, and not inside a longer path,
      whatever character of a path goes on. */
  lemma MentionsOfApp(c: char)
    requires c == '-' || c == '_' || c == '/' || c == 'x' || c == '7'
    ensures Named("use acme/app.", "acme/app") && !Named("acme/app" + [c], "acme/app")
    ensures !Named([c] + "acme/app", "acme/app") && !Named("acme/app.js", "acme/app")
  {
    SentenceNames();
    LongerPathsDoNot(c);
  }

  lemma SentenceNames()
    ensures Named("use acme/app.", "acme/app")
  {
    var text, name := "use acme/app.", "acme/app";
    assert text[4..12] == name;
    assert OccursAt(text, name, 4);
    NotExtended(text, 3, Back);
    ExtendsPastDot(text, 12, Forth);
    NotExtended(text, 13, Forth);
    assert Guarded(text, name, 4);
  }

  lemma LongerPathsDoNot(c: char)
    requires IsPathChar(c)
    ensures !Named("acme/app" + [c], "acme/app") && !Named([c] + "acme/app", "acme/app")
            && !Named("acme/app.js", "acme/app")
  {
    NameLeadsOn("acme/app", [c], 0);
    NameComesAfter([c], "acme/app");
    DotLeadsOn();
  }

  lemma NameLeadsOn(name: string, rest: string, k: int)
    requires name == "acme/app" && |rest| == 1 && IsPathChar(rest[0])
    ensures !Named(name + rest, name)
  {
    var text := name + rest;
    forall at ensures !Guarded(text, name, at) {
      if at == 0 {
        ExtendsHere(text, |name|, Forth);
      } else if at == 1 {
        ExtendsHere(text, 0, Back);
      }
    }
  }

  lemma NameComesAfter(front: string, name: string)
    requires name == "acme/app" && |front| == 1 && IsPathChar(front[0])
    ensures !Named(front + name, name)
  {
    var text := front + name;
    forall at ensures !Guarded(text, name, at) {
      if at == 1 {
        ExtendsHere(text, 0, Back);
      } else if at == 0 {
        ExtendsHere(text, |name|, Forth);
      }
    }
  }

  lemma DotLeadsOn()
    ensures !Named("acme/app.js", "acme/app")
  {
    var text, name := "acme/app.js", "acme/app";
    forall at ensures !Guarded(text, name, at) {
      if at == 0 {
        ExtendsPastDot(text, 8, Forth);
        ExtendsHere(text, 9, Forth);
      } else if 0 < at <= 3 {
        assert text[at..at + 8][0] == text[at];
        assert name[0] == 'a';
        StartsElsewhere(text, name, at);
      }
    }
  }

  lemma StartsElsewhere(text: string, name: string, at: int)
    requires text == "acme/app.js" && name == "acme/app" && 0 < at <= 3
    ensures !OccursAt(text, name, at)
  {
    assert text[at] != 'a';
    assert at + 8 <= |text| ==> text[at..at + 8][0] == text[at];
  }
}
