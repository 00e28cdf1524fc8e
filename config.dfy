/**
 * Migration settings, string dictionaries and the environment the code
 * consults but that is outside the model (dates, hashes, user regexes).
 */
module Config {
  import opened Wrappers

  /** A plain JavaScript object used as a string dictionary, in `Object.keys` order. */
  type StrMap = seq<(string, string)>

  function Keys(m: StrMap): (ks: seq<string>)
    ensures |ks| == |m|
    ensures forall i | 0 <= i < |m| :: ks[i] == m[i].0
  {
    seq(|m|, i requires 0 <= i < |m| => m[i].0)
  }

  /**
   * `m[k]` on a dictionary kept as an association list (a plain object, or
   * a `Map`): the value of the first entry with key `k`, if there is one.
   */
  function Lookup<K(==), V>(m: seq<(K, V)>, k: K): (r: Option<V>)
    ensures r.Some? <==> exists i | 0 <= i < |m| :: m[i].0 == k
    ensures r.Some? ==> (k, r.value) in m
  {
    if m == [] then None
    else if m[0].0 == k then Some(m[0].1)
    else
      var r := Lookup(m[1..], k);
      assert forall i | 1 <= i < |m| :: m[i] == m[1..][i - 1];
      r
  }

  /** `${x}` where `x` may be undefined. */
  function Show(x: Option<string>): string {
    if x.Some? then x.value else "undefined"
  }

  datatype GithubSettings = GithubSettings(
    baseUrl: string,              // "" when not configured
    owner: string,
    repo: string,
    tokenOwner: string,
    username: Option<string>)

  datatype InactiveUserSettings = InactiveUserSettings(prepend: Option<string>, inactiveUserMap: StrMap)

  /** `settings.transfer`: which GitLab items are selected for migration. */
  datatype TransferSettings = TransferSettings(
    transferOnlyOpen: bool,
    createdAfter: Option<string>,
    updatedAfter: Option<string>)

  /** An empty string stands for an unset (falsy) setting. */
  datatype S3Settings = S3Settings(bucket: string, region: string)

  datatype AzureSettings = AzureSettings(
    containerName: string,
    connectionString: string,
    accountName: string,
    accountKey: string,
    endpoint: string)

  datatype Settings = Settings(
    github: GithubSettings,
    usermap: StrMap,
    projectmap: StrMap,
    inactiveUserSettings: InactiveUserSettings,
    useLowerCaseLabels: bool,
    useIssueImportAPI: bool,
    usePlaceholderIssuesForMissingIssues: bool,
    useReplacementIssuesForCreationFails: bool,
    skipMatchingComments: seq<string>,
    transfer: TransferSettings,
    s3: Option<S3Settings>,
    azure: Option<AzureSettings>,
    dryRun: bool)

  /**
   * What the code asks of its runtime: `Date.parse` (None for NaN), the
   * `en-US` date formatting of `addMigrationLine`, the md5 and sha256 hex
   * digests, and `new RegExp(pattern, 'i').test(text)` for user-supplied patterns.
   */
  datatype Env = Env(
    parseDate: string -> Option<int>,
    formatDate: string -> string,
    md5Hex: string -> string,
    sha256Hex: string -> string,
    regexTest: (string, string) -> bool)

  /** `Date.parse(a) > Date.parse(b)`: false when either is NaN. */
  predicate After(env: Env, a: Option<string>, b: string) {
    a.Some? && env.parseDate(a.value).Some? && env.parseDate(b).Some?
    && env.parseDate(a.value).value > env.parseDate(b).value
  }

  /**
   * The selection the transfer functions apply to fetched items: the open-state
   * filter (`openState` is "opened" for issues and merge requests, "active" for
   * milestones), then the creation and update date filters.
   */
  predicate Selected(t: TransferSettings, env: Env, openState: string, state: string, createdAt: Option<string>, updatedAt: Option<string>) {
    (!t.transferOnlyOpen || state == openState)
    && (t.createdAfter.None? || t.createdAfter.value == "" || After(env, createdAt, t.createdAfter.value))
    && (t.updatedAfter.None? || t.updatedAfter.value == "" || After(env, updatedAt, t.updatedAfter.value))
  }
}
