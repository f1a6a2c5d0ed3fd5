/** The documents the improvement loop reads and writes. */
module Records {
  import opened Text

  /** One topic's search: a name and its keywords, in order. */
  datatype Definition = Definition(name: string, words: seq<string>)

  // ---- the policy document ----

  /** Why a mined topic exists. A field failure contributes keywords only. */
  datatype Support =
    | FieldSupport(trace: string, matched: seq<string>)
    | ArchiveSupport(round: int, excerpt: string)

  datatype Topic = Topic(name: string, keywords: seq<string>, weight: real, minedFrom: seq<Support>)

  datatype Origin = Init | Revision | Rollback

  datatype Policy = Policy(
    version: int, parent: Option<int>, origin: Origin, restored: Option<int>,
    threshold: int, topics: seq<Topic>)

  /** What a policy's content hash covers: threshold and, in order, each topic's
      name, keywords and weight. The hash is taken to be injective, so it is its
      own preimage here. */
  datatype Config = Config(threshold: int, topics: seq<(Definition, real)>)

  // ---- the archive ----

  /** An archived review round; absent JSON fields are None. */
  datatype ArchiveEntry = ArchiveEntry(
    round: Option<int>, findings: seq<string>, sourceSha: Option<string>,
    occurredAt: Option<int>, policyVersion: Option<int>, policyHash: Option<Config>)

  /** Identity of a round: the reviewed commit, or the number of a legacy round. */
  datatype RoundKey = ByCommit(sha: string) | ByNumber(round: Option<int>)

  // ---- field evidence ----

  /** One session that showed a topic: its earliest match and every match; None
      where an undated or hidden match makes the value unknown. */
  datatype Trace = Trace(id: string, timestamp: Option<int>, timestamps: Option<seq<int>>)

  datatype Evidence = Evidence(
    topics: map<string, seq<Trace>>, truncated: set<string>,
    definitions: seq<Definition>, sessions: set<string>, failureCount: nat, collectedAt: Option<int>)

  /** Known trace counts per topic; None is unknown. */
  type Counts = map<string, Option<int>>

  // ---- measurements ----

  datatype Source = Archived(round: int) | Field(trace: string)

  datatype Item = Item(source: Source, finding: string)

  datatype Epoch = Epoch(
    round: Option<int>, timestamp: Option<int>, total: nat, classified: nat,
    coverage: Option<real>, dev: map<string, nat>, devWeighted: map<string, real>,
    anchor: Option<Counts>, validity: Option<real>, unclassified: seq<Item>,
    devOnly: seq<string>)

  datatype Current = Current(
    epoch: Epoch, roundsAfterEvidence: nat,
    anchorEvidence: Option<Counts>, anchorDefinitions: seq<Definition>)

  /** The archive digest is taken to be injective, so it is the archive; the
      evidence digest is the snapshot without its collection time. */
  datatype Measurement = Measurement(
    policyHash: Config, archiveDigest: seq<ArchiveEntry>,
    collectedAt: Option<int>, evidenceDigest: Option<Evidence>,
    epochs: seq<Epoch>, current: Current)

  // ---- the policy history ----

  /** evidenceDigest is None in records written before digests existed. */
  datatype HistoryEntry = HistoryEntry(
    version: int, parent: Option<int>, origin: Origin,
    replacedHash: Option<Config>, replacedVersion: int,
    archiveDigest: seq<ArchiveEntry>, collectedAt: Option<int>,
    evidenceDigest: Option<Option<Evidence>>, policy: Option<Policy>)
}

/** round(x, k): nearest multiple of 1/scale, ties to even, on exact reals. */
module Rounding {
  function NearestInt(y: real): int {
    var f := y.Floor;
    var d := y - f as real;
    if d < 0.5 || (d == 0.5 && f % 2 == 0) then f else f + 1
  }

  function RoundTo(x: real, scale: real): real
    requires scale > 0.0
  {
    NearestInt(x * scale) as real / scale
  }

  function Round3(x: real): real { RoundTo(x, 1000.0) }
  function Round4(x: real): real { RoundTo(x, 10000.0) }

  lemma NearestIntMonotone(x: real, y: real)
    requires x <= y
    ensures NearestInt(x) <= NearestInt(y)
  {
  }

  lemma Round4Monotone(x: real, y: real)
    requires x <= y
    ensures Round4(x) <= Round4(y)
  {
    NearestIntMonotone(x * 10000.0, y * 10000.0);
  }
}
