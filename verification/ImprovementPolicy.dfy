/** scripts/improvement_policy.py: the policy document, its validation and
    content hash, and the one classification rule every tool shares. */
module ImprovementPolicy {
  import opened Text
  import opened Records

  const BUILTIN_THRESHOLD := 3

  const CREDENTIAL_REDACTION :=
    Definition("credential-redaction", ["redact", "credential", "secret", "token", "leak", "expos"])
  const SHELL_SEMANTICS :=
    Definition("shell-semantics", ["errexit", "bash -e", "exit code", "-e", "pipefail", "shell"])
  const ENV_VAR_PRECEDENCE :=
    Definition("env-var-precedence", ["precedence", "env var", "environment variable", "unconditionally"])
  const FORK_PR_PERMISSIONS :=
    Definition("fork-pr-permissions", ["fork", "github_token", "persist-credentials"])
  const AUTH_LIFECYCLE :=
    Definition("auth-lifecycle", ["refresh token", "rotat", "expir", "auth.json", "stale"])

  const BUILTIN_TOPIC_KEYWORDS: seq<Definition> :=
    FiveDefinitions(CREDENTIAL_REDACTION, SHELL_SEMANTICS, ENV_VAR_PRECEDENCE, FORK_PR_PERMISSIONS, AUTH_LIFECYCLE)

  function BuiltinPolicy(): Policy {
    Policy(1, None, Init, None, BUILTIN_THRESHOLD,
      seq(|BUILTIN_TOPIC_KEYWORDS|, i requires 0 <= i < |BUILTIN_TOPIC_KEYWORDS| =>
        Topic(BUILTIN_TOPIC_KEYWORDS[i].name, BUILTIN_TOPIC_KEYWORDS[i].words, 1.0, [])))
  }

  function KeyOf(e: ArchiveEntry): RoundKey {
    match e.sourceSha
    case Some(sha) => if sha != "" then ByCommit(sha) else ByNumber(e.round)
    case None => ByNumber(e.round)
  }

  /** Two entries are one round when they name the same commit or, if neither names
      one, have the same number. */
  lemma SameRoundIff(a: ArchiveEntry, b: ArchiveEntry)
    ensures KeyOf(a) == KeyOf(b) <==>
            if HasCommit(a) || HasCommit(b) then a.sourceSha == b.sourceSha else a.round == b.round
  {
  }

  predicate HasCommit(e: ArchiveEntry) { e.sourceSha.Some? && e.sourceSha.value != "" }

  // ---- content hash ----

  function Keywords(topics: seq<Topic>): (r: seq<Definition>)
    ensures |r| == |topics|
  {
    seq(|topics|, i requires 0 <= i < |topics| => Definition(topics[i].name, topics[i].keywords))
  }

  function ConfigOf(threshold: int, topics: seq<Topic>): Config {
    Config(threshold, seq(|topics|, i requires 0 <= i < |topics| =>
      (Definition(topics[i].name, topics[i].keywords), topics[i].weight)))
  }

  function PolicyHash(p: Policy): Config { ConfigOf(p.threshold, p.topics) }

  function NameSet(defs: seq<Definition>): set<string> { set d | d in defs :: d.name }

  // ---- validation ----

  /** The characters str.strip() removes. */
  predicate IsSpace(c: char) {
    var n := c as int;
    || 9 <= n <= 13 || 28 <= n <= 32 || n == 0x85 || n == 0xA0 || n == 0x1680
    || 0x2000 <= n <= 0x200A || n == 0x2028 || n == 0x2029 || n == 0x202F || n == 0x205F || n == 0x3000
  }

  /** s.strip() */
  function Strip(s: string): string {
    if s == "" then ""
    else if IsSpace(s[0]) then Strip(s[1..])
    else if IsSpace(s[|s| - 1]) then Strip(s[..|s| - 1])
    else s
  }

  predicate ValidName(name: string) {
    name != "" && '@' !in name && !IsSpace(name[0]) && !IsSpace(name[|name| - 1])
  }

  predicate ValidTopic(t: Topic) {
    && ValidName(t.name)
    && t.keywords != [] && (forall i | 0 <= i < |t.keywords| :: t.keywords[i] != "")
    && t.weight > 0.0
  }

  predicate DistinctNames(topics: seq<Topic>) {
    forall i, j | 0 <= i < j < |topics| :: topics[i].name != topics[j].name
  }

  /** What validate_policy accepts; topic names are keys of one JSON object. */
  predicate ValidPolicy(p: Policy) {
    && p.version >= 1 && p.threshold >= 1
    && p.topics != [] && DistinctNames(p.topics)
    && forall i | 0 <= i < |p.topics| :: ValidTopic(p.topics[i])
  }

  /** A name is valid when it is not empty, has no '@' and is its own trimming. */
  lemma ValidNameIs(name: string)
    ensures ValidName(name) <==> name != "" && '@' !in name && Strip(name) == name
  {
    if name != "" { StripShrinks(name); }
  }

  lemma {:induction false} StripShrinks(s: string)
    ensures |Strip(s)| <= |s|
    ensures s != "" && (IsSpace(s[0]) || IsSpace(s[|s| - 1])) ==> |Strip(s)| < |s|
    decreases |s|
  {
    if s != "" {
      if IsSpace(s[0]) {
        StripShrinks(s[1..]);
      } else if IsSpace(s[|s| - 1]) {
        StripShrinks(s[..|s| - 1]);
      }
    }
  }

  /** What makes a policy document valid, one requirement at a time. */
  lemma ValidPolicyIs(p: Policy)
    ensures ValidPolicy(p) <==>
              && p.version > 0 && p.threshold > 0 && |p.topics| > 0
              && (forall i, j | 0 <= i < |p.topics| && 0 <= j < |p.topics|
                && p.topics[i].name == p.topics[j].name :: i == j)
              && forall t | t in p.topics ::
                   && t.name != "" && '@' !in t.name && Strip(t.name) == t.name
                   && |t.keywords| > 0 && "" !in t.keywords && t.weight > 0.0
  {
    forall i | 0 <= i < |p.topics|
      ensures ValidTopic(p.topics[i]) <==>
                && p.topics[i].name != "" && '@' !in p.topics[i].name && Strip(p.topics[i].name) == p.topics[i].name
                && |p.topics[i].keywords| > 0 && "" !in p.topics[i].keywords && p.topics[i].weight > 0.0
      ensures p.topics[i] in p.topics
    {
      ValidNameIs(p.topics[i].name);
    }
  }

  /** The successor document, or None when its validation raises. */
  function NewVersion(parent: Policy, topics: seq<Topic>, threshold: int, origin: Origin,
                      restored: Option<int>): Option<Policy>
    requires origin != Init
  {
    var p := Policy(parent.version + 1, Some(parent.version), origin,
                    if origin == Rollback then restored else None, threshold, topics);
    if ValidPolicy(p) then Some(p) else None
  }

  /** The policy in force is exactly the snapshot its history ends with. */
  predicate MatchesHistory(p: Policy, history: seq<HistoryEntry>) {
    if history == [] then p.origin == Init && p.parent == None
    else
      var latest := history[|history| - 1];
      && latest.version == p.version
      && latest.policy.Some?
      && latest.policy.value.version == p.version && latest.policy.value.parent == p.parent
      && latest.policy.value.origin == p.origin && latest.policy.value.restored == p.restored
      && PolicyHash(latest.policy.value) == PolicyHash(p)
  }

  // ---- classification ----

  predicate MentionsAny(lowered: string, words: seq<string>) {
    exists i | 0 <= i < |words| :: Contains(lowered, words[i])
  }

  function FirstMatch(lowered: string, defs: seq<Definition>): Option<string> {
    if defs == [] then None
    else if MentionsAny(lowered, defs[0].words) then Some(defs[0].name)
    else FirstMatch(lowered, defs[1..])
  }

  /** What a finding counts as; earlier definitions take precedence. */
  function Classify(text: string, defs: seq<Definition>): Option<string> {
    FirstMatch(Lower(text), defs)
  }

  /** Independent statement of the rule: the answer names the first definition
      that matches, and None means that none does. */
  lemma {:induction false} FirstMatchIsFirst(lowered: string, defs: seq<Definition>)
    ensures FirstMatch(lowered, defs).None? <==> forall i | 0 <= i < |defs| :: !MentionsAny(lowered, defs[i].words)
    ensures FirstMatch(lowered, defs).Some? ==>
              exists i | 0 <= i < |defs| ::
                && MentionsAny(lowered, defs[i].words) && FirstMatch(lowered, defs) == Some(defs[i].name)
                && forall j | 0 <= j < i :: !MentionsAny(lowered, defs[j].words)
  {
    if defs != [] && !MentionsAny(lowered, defs[0].words) {
      FirstMatchIsFirst(lowered, defs[1..]);
      if FirstMatch(lowered, defs).Some? {
        var k :| 0 <= k < |defs[1..]|
          && MentionsAny(lowered, defs[1..][k].words) && FirstMatch(lowered, defs[1..]) == Some(defs[1..][k].name)
          && forall j | 0 <= j < k :: !MentionsAny(lowered, defs[1..][j].words);
        assert defs[k + 1] == defs[1..][k];
        forall j | 0 <= j < k + 1 ensures !MentionsAny(lowered, defs[j].words) {
          if j > 0 { assert defs[j] == defs[1..][j - 1]; }
        }
      } else {
        forall i | 0 <= i < |defs| ensures !MentionsAny(lowered, defs[i].words) {
          if i > 0 { assert defs[i] == defs[1..][i - 1]; }
        }
      }
    }
  }

  lemma ClassifiedName(f: string, defs: seq<Definition>)
    requires Classify(f, defs).Some?
    ensures exists i | 0 <= i < |defs| :: defs[i].name == Classify(f, defs).value
  {
    FirstMatchIsFirst(Lower(f), defs);
  }

  /** Definitions added at the end never change an existing answer. */
  lemma {:induction false} FirstMatchAppend(lowered: string, defs: seq<Definition>, more: seq<Definition>)
    ensures FirstMatch(lowered, defs + more) ==
            if FirstMatch(lowered, defs).Some? then FirstMatch(lowered, defs) else FirstMatch(lowered, more)
  {
    if defs == [] {
      assert defs + more == more;
    } else {
      assert (defs + more)[1..] == defs[1..] + more;
      FirstMatchAppend(lowered, defs[1..], more);
    }
  }

  predicate ValidDefinition(d: Definition) {
    ValidName(d.name) && d.words != [] && forall i | 0 <= i < |d.words| :: d.words[i] != ""
  }

  lemma CredentialRedactionIsValid()
    ensures ValidDefinition(CREDENTIAL_REDACTION) && |CREDENTIAL_REDACTION.name| == 20
  {
  }

  lemma ShellSemanticsIsValid() ensures ValidDefinition(SHELL_SEMANTICS) && |SHELL_SEMANTICS.name| == 15 {}
  lemma EnvVarPrecedenceIsValid() ensures ValidDefinition(ENV_VAR_PRECEDENCE) && |ENV_VAR_PRECEDENCE.name| == 18 {}
  lemma ForkPrPermissionsIsValid() ensures ValidDefinition(FORK_PR_PERMISSIONS) && |FORK_PR_PERMISSIONS.name| == 19 {}
  lemma AuthLifecycleIsValid() ensures ValidDefinition(AUTH_LIFECYCLE) && |AUTH_LIFECYCLE.name| == 14 {}

  function FiveDefinitions(a: Definition, b: Definition, c: Definition, d: Definition, e: Definition): seq<Definition> {
    [a, b, c, d, e]
  }

  lemma FiveValid(a: Definition, b: Definition, c: Definition, d: Definition, e: Definition)
    requires ValidDefinition(a) && ValidDefinition(b) && ValidDefinition(c) && ValidDefinition(d) && ValidDefinition(e)
    requires |a.name| == 20 && |b.name| == 15 && |c.name| == 18 && |d.name| == 19 && |e.name| == 14
    ensures var s := FiveDefinitions(a, b, c, d, e);
            && (forall i | 0 <= i < |s| :: ValidDefinition(s[i]))
            && (forall i, j | 0 <= i < j < |s| :: s[i].name != s[j].name)
  {
  }

  lemma BuiltinDefinitions()
    ensures forall i | 0 <= i < |BUILTIN_TOPIC_KEYWORDS| :: ValidDefinition(BUILTIN_TOPIC_KEYWORDS[i])
    ensures forall i, j | 0 <= i < j < |BUILTIN_TOPIC_KEYWORDS| ::
              BUILTIN_TOPIC_KEYWORDS[i].name != BUILTIN_TOPIC_KEYWORDS[j].name
  {
    CredentialRedactionIsValid(); ShellSemanticsIsValid(); EnvVarPrecedenceIsValid();
    ForkPrPermissionsIsValid(); AuthLifecycleIsValid();
    FiveValid(CREDENTIAL_REDACTION, SHELL_SEMANTICS, ENV_VAR_PRECEDENCE, FORK_PR_PERMISSIONS, AUTH_LIFECYCLE);
  }

  lemma BuiltinIsValid()
    ensures ValidPolicy(BuiltinPolicy())
    ensures Keywords(BuiltinPolicy().topics) == BUILTIN_TOPIC_KEYWORDS
  {
    BuiltinDefinitions();
    var topics := BuiltinPolicy().topics;
    forall i | 0 <= i < |topics| ensures ValidTopic(topics[i]) {
      assert ValidDefinition(BUILTIN_TOPIC_KEYWORDS[i]);
    }
  }
}
