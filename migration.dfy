/**
 * The fixed text of replacement issues, kept in a module of its own so that
 * the long literal stays out of the proofs that do not need it.
 */
module IssueTemplates {
  /** The text after the title in a replacement issue's description; the link is still a "TODO" in the code. */
  const ReplacementNotice := "\n\ncould not be created.\nThis is a dummy issue, replacing the original one. It contains everything but the original issue description. In case the gitlab repository is still existing, visit the following link to show the original issue:\n\nTODO"
}

/**
 * The migration driver (src/index.ts): which GitLab items are transferred,
 * the placeholder issues that keep GitHub numbers aligned with GitLab iids,
 * the create / replacement / failure fallback and its counters, and the
 * "already exists" checks for merge requests, milestones and labels.
 * Every call to GitHub is an oracle: `createSucceeds` says whether creating
 * a given issue succeeds.
 */
module Migration {
  import opened Wrappers
  import opened IssueTemplates
  import opened Strings
  import opened Seqs
  import opened Config
  import opened Entities
  import opened Conversion
  import opened GithubHelper

  // ---------------------------------------------------------------------------
  // Placeholder and replacement issues

  const PlaceholderDescription := "This is to ensure the issue numbers in GitLab and GitHub are the same"

  /** createPlaceholderIssue */
  function CreatePlaceholderIssue(expectedIdx: int): (r: Issue)
    ensures r.iid == expectedIdx && r.state == "closed" && r.isPlaceholder
    ensures r.title == "[PLACEHOLDER ISSUE] - for issue #" + IntToString(expectedIdx)
    ensures r.description == Some(PlaceholderDescription)
    ensures r.author.None? && r.labels.None? && r.assignees.None? && r.milestoneTitle.None?
  {
    Issue(expectedIdx, "[PLACEHOLDER ISSUE] - for issue #" + IntToString(expectedIdx),
          Some(PlaceholderDescription), "closed", None, None, None, None, None, None, true)
  }


  /** createReplacementIssue: same iid and state, a marked title, no placeholder flag. */
  function CreateReplacementIssue(id: int, title: string, state: string): (r: Issue)
    ensures r.iid == id && r.state == state && !r.isPlaceholder
    ensures r.title == title + " [REPLACEMENT ISSUE]"
    ensures r.description == Some("The original issue\n\n\tId: " + IntToString(id) + "\n\tTitle: " + title + ReplacementNotice)
    ensures r.author.None? && r.labels.None? && r.assignees.None? && r.milestoneTitle.None?
  {
    var head := "The original issue\n\n\tId: " + IntToString(id) + "\n\tTitle: ";
    Issue(id, title + " [REPLACEMENT ISSUE]", Some(head + title + ReplacementNotice), state, None, None, None, None, None, None, false)
  }

  // ---------------------------------------------------------------------------
  // Selection

  function IssueIid(x: Issue): int {
    x.iid
  }

  function IssueSelected(t: TransferSettings, env: Env): Issue -> bool {
    (x: Issue) => Selected(t, env, "opened", x.state, x.createdAt, x.updatedAt)
  }

  /** The fetched issues after the open/created/updated filters, sorted by iid. */
  function SelectIssues(fetched: seq<Issue>, t: TransferSettings, env: Env): seq<Issue> {
    SortBy(Filter(fetched, IssueSelected(t, env)), IssueIid)
  }

  lemma SelectIssuesIsSortedSelection(fetched: seq<Issue>, t: TransferSettings, env: Env)
    ensures SortedBy(SelectIssues(fetched, t, env), IssueIid)
    ensures forall x | x in SelectIssues(fetched, t, env) :: x in fetched && IssueSelected(t, env)(x)
    ensures forall x | x in fetched && IssueSelected(t, env)(x) :: x in SelectIssues(fetched, t, env)
  {
    var f := Filter(fetched, IssueSelected(t, env));
    FilterSpec(fetched, IssueSelected(t, env));
    forall x | x in SelectIssues(fetched, t, env) ensures x in f {
      assert x in multiset(SelectIssues(fetched, t, env));
    }
    forall x | x in f ensures x in SelectIssues(fetched, t, env) {
      assert x in multiset(f);
    }
  }

  // ---------------------------------------------------------------------------
  // Placeholder gap filling

  /** The first issue with iid `n`. */
  function FindIid(issues: seq<Issue>, n: int): (r: Option<Issue>)
    ensures r.Some? ==> r.value in issues && r.value.iid == n
    ensures r.None? <==> forall j | 0 <= j < |issues| :: issues[j].iid != n
  {
    if issues == [] then None
    else if issues[0].iid == n then Some(issues[0])
    else
      var r := FindIid(issues[1..], n);
      assert forall j | 1 <= j < |issues| :: issues[j] == issues[1..][j - 1];
      r
  }

  function LastIid(issues: seq<Issue>): int {
    if issues == [] then 0 else issues[|issues| - 1].iid
  }

  /** What the gap-fill loop needs to terminate: iids strictly increasing and at least 1. */
  predicate GapFillable(issues: seq<Issue>) {
    StrictlyIncreasingBy(issues, IssueIid) && forall j | 0 <= j < |issues| :: issues[j].iid >= 1
  }

  /**
   * The list the placeholder loop produces: position k holds the issue with
   * iid k + 1, or a placeholder for it.
   */
  function Aligned(issues: seq<Issue>): (r: seq<Issue>)
    requires GapFillable(issues)
    ensures |r| == LastIid(issues)
    ensures forall k | 0 <= k < |r| :: r[k].iid == k + 1
    ensures forall k | 0 <= k < |r| :: r[k] in issues || r[k] == CreatePlaceholderIssue(k + 1)
  {
    seq(LastIid(issues), k requires 0 <= k < LastIid(issues) =>
      match FindIid(issues, k + 1)
      case Some(x) => x
      case None => CreatePlaceholderIssue(k + 1))
  }

  lemma FindIidUnique(issues: seq<Issue>, j: nat)
    requires StrictlyIncreasingBy(issues, IssueIid) && j < |issues|
    ensures FindIid(issues, issues[j].iid) == Some(issues[j])
  {
    forall m | 0 <= m < |issues| && m != j ensures issues[m].iid != issues[j].iid {
      if m < j {
        assert IssueIid(issues[m]) < IssueIid(issues[j]);
      } else {
        assert IssueIid(issues[j]) < IssueIid(issues[m]);
      }
    }
  }

  lemma LastIidIsMax(issues: seq<Issue>, j: nat)
    requires StrictlyIncreasingBy(issues, IssueIid) && j < |issues|
    ensures issues[j].iid <= LastIid(issues)
  {
    if j < |issues| - 1 {
      assert IssueIid(issues[j]) < IssueIid(issues[|issues| - 1]);
    }
  }

  /** Every real issue sits at the position its iid names. */
  lemma AlignedKeepsIssues(issues: seq<Issue>)
    requires GapFillable(issues)
    ensures forall j | 0 <= j < |issues| :: Aligned(issues)[issues[j].iid - 1] == issues[j]
  {
    forall j | 0 <= j < |issues| ensures Aligned(issues)[issues[j].iid - 1] == issues[j] {
      LastIidIsMax(issues, j);
      FindIidUnique(issues, j);
    }
  }

  /** Placeholders never remove or reorder real issues. */
  lemma AlignedKeepsOrder(issues: seq<Issue>)
    requires GapFillable(issues)
    ensures IsSubsequence(issues, Aligned(issues))
  {
    var aligned := Aligned(issues);
    AlignedKeepsIssues(issues);
    var pos := seq(|issues|, j requires 0 <= j < |issues| => issues[j].iid - 1);
    forall j | 0 <= j < |issues| ensures 0 <= pos[j] < |aligned| && aligned[pos[j]] == issues[j] {
      LastIidIsMax(issues, j);
    }
    forall j, l | 0 <= j < l < |issues| ensures pos[j] < pos[l] {
      assert IssueIid(issues[j]) < IssueIid(issues[l]);
    }
    SubsequenceByPositions(issues, aligned, pos);
  }

  /** A list already numbered 1, 2, 3, ... gets no placeholder. */
  lemma AlignedOfContiguous(issues: seq<Issue>)
    requires forall k | 0 <= k < |issues| :: issues[k].iid == k + 1
    ensures GapFillable(issues)
    ensures Aligned(issues) == issues
  {
    forall j, l | 0 <= j < l < |issues| ensures IssueIid(issues[j]) < IssueIid(issues[l]) {
    }
    assert GapFillable(issues);
    var aligned := Aligned(issues);
    assert |aligned| == |issues|;
    forall k | 0 <= k < |issues| ensures aligned[k] == issues[k] {
      FindIidUnique(issues, k);
    }
  }

  /** The issue counters of the migration; each field is bumped in place. */
  class IssueCounters {
    var nrOfPlaceholderIssues: nat
    var nrOfReplacementIssues: nat
    var nrOfFailedIssues: nat

    constructor()
      ensures nrOfPlaceholderIssues == 0 && nrOfReplacementIssues == 0 && nrOfFailedIssues == 0
    {
      nrOfPlaceholderIssues := 0;
      nrOfReplacementIssues := 0;
      nrOfFailedIssues := 0;
    }
  }

  lemma AlignedAt(issues: seq<Issue>, i: nat, j: nat)
    requires GapFillable(issues)
    requires j < |issues| && issues[j].iid >= i + 1
    requires forall m | 0 <= m < j :: issues[m].iid <= i
    ensures i < LastIid(issues)
    ensures issues[j].iid == i + 1 ==> Aligned(issues)[i] == issues[j]
    ensures issues[j].iid != i + 1 ==> Aligned(issues)[i] == CreatePlaceholderIssue(i + 1)
  {
    LastIidIsMax(issues, j);
    if issues[j].iid == i + 1 {
      FindIidUnique(issues, j);
    } else {
      forall m | 0 <= m < |issues| ensures issues[m].iid != i + 1 {
        if m > j {
          assert IssueIid(issues[j]) < IssueIid(issues[m]);
        }
      }
    }
  }

  /**
   * Where the placeholder loop stands: the first `i` entries are final, the
   * rest is the part of the input from `j` on, still untouched.
   */
  ghost predicate FillState(issues: seq<Issue>, filled: seq<Issue>, i: nat, j: nat)
    requires GapFillable(issues)
  {
    && j <= |issues| && j <= i <= LastIid(issues)
    && |filled| == i + |issues| - j
    && (forall k | 0 <= k < i :: filled[k] == Aligned(issues)[k])
    && (forall k | i <= k < |filled| :: filled[k] == issues[k - i + j])
    && (j < |issues| ==> issues[j].iid >= i + 1)
    && (j == |issues| ==> i == LastIid(issues))
    && (forall m | 0 <= m < j :: issues[m].iid <= i)
  }

  /** A placeholder spliced in front of position `i` keeps the loop state consistent. */
  lemma FillSpliceStep(issues: seq<Issue>, filled: seq<Issue>, i: nat, j: nat)
    requires GapFillable(issues) && FillState(issues, filled, i, j) && i < |filled|
    requires filled[i].iid != i + 1
    ensures i < LastIid(issues)
    ensures FillState(issues, filled[..i] + [CreatePlaceholderIssue(i + 1)] + filled[i..], i + 1, j)
  {
    assert filled[i] == issues[j];
    AlignedAt(issues, i, j);
    var spliced := filled[..i] + [CreatePlaceholderIssue(i + 1)] + filled[i..];
    SpliceAt(filled, CreatePlaceholderIssue(i + 1), i);
    forall k | i + 1 <= k < |spliced| ensures spliced[k] == issues[k - (i + 1) + j] {
      assert spliced[k] == filled[k - 1];
    }
  }

  /** Where the entries of `filled` end up once `x` is spliced in at `i`. */
  lemma SpliceAt(filled: seq<Issue>, x: Issue, i: nat)
    requires i <= |filled|
    ensures var spliced := filled[..i] + [x] + filled[i..];
      |spliced| == |filled| + 1 && spliced[i] == x
      && (forall k | 0 <= k < i :: spliced[k] == filled[k])
      && (forall k | i < k < |spliced| :: spliced[k] == filled[k - 1])
  {
  }

  /** An issue already at its position keeps the loop state consistent. */
  lemma FillKeepStep(issues: seq<Issue>, filled: seq<Issue>, i: nat, j: nat)
    requires GapFillable(issues) && FillState(issues, filled, i, j) && i < |filled|
    requires filled[i].iid == i + 1
    ensures i < LastIid(issues)
    ensures FillState(issues, filled, i + 1, j + 1)
  {
    assert filled[i] == issues[j];
    AlignedAt(issues, i, j);
    if j + 1 < |issues| {
      assert IssueIid(issues[j]) < IssueIid(issues[j + 1]);
    }
  }

  /** When the loop leaves, the list is the aligned one and every added entry is a placeholder. */
  lemma FillDone(issues: seq<Issue>, filled: seq<Issue>, i: nat, j: nat)
    requires GapFillable(issues) && FillState(issues, filled, i, j) && i >= |filled|
    ensures filled == Aligned(issues) && |filled| - |issues| == i - j
  {
  }

  /**
   * One turn of the placeholder loop: when the entry at `i` does not have
   * iid i + 1, a placeholder for i + 1 is spliced in before it and counted.
   */
  method FillTurn(issues: seq<Issue>, filled: seq<Issue>, i: nat, ghost j: nat, counters: IssueCounters)
    returns (filled': seq<Issue>, ghost j': nat)
    requires GapFillable(issues) && FillState(issues, filled, i, j) && i < |filled|
    modifies counters
    ensures i < LastIid(issues) && FillState(issues, filled', i + 1, j')
    ensures counters.nrOfPlaceholderIssues + j' == old(counters.nrOfPlaceholderIssues) + 1 + j
    ensures counters.nrOfReplacementIssues == old(counters.nrOfReplacementIssues)
    ensures counters.nrOfFailedIssues == old(counters.nrOfFailedIssues)
  {
    if filled[i].iid != i + 1 {
      FillSpliceStep(issues, filled, i, j);
      filled' := filled[..i] + [CreatePlaceholderIssue(i + 1)] + filled[i..];
      j' := j;
      counters.nrOfPlaceholderIssues := counters.nrOfPlaceholderIssues + 1;
    } else {
      FillKeepStep(issues, filled, i, j);
      filled' := filled;
      j' := j + 1;
    }
  }

  /**
   * The placeholder loop of transferIssues: wherever the issue at position i
   * does not have iid i + 1, a placeholder for i + 1 is spliced in before it.
   */
  method FillGaps(issues: seq<Issue>, counters: IssueCounters) returns (filled: seq<Issue>)
    requires GapFillable(issues)
    modifies counters
    ensures filled == Aligned(issues)
    ensures counters.nrOfPlaceholderIssues == old(counters.nrOfPlaceholderIssues) + |filled| - |issues|
    ensures counters.nrOfReplacementIssues == old(counters.nrOfReplacementIssues)
    ensures counters.nrOfFailedIssues == old(counters.nrOfFailedIssues)
  {
    filled := issues;
    var i := 0;
    ghost var j := 0;
    while i < |filled|
      invariant FillState(issues, filled, i, j)
      invariant counters.nrOfPlaceholderIssues + j == old(counters.nrOfPlaceholderIssues) + i
      invariant counters.nrOfReplacementIssues == old(counters.nrOfReplacementIssues)
      invariant counters.nrOfFailedIssues == old(counters.nrOfFailedIssues)
      decreases LastIid(issues) - i
    {
      filled, j := FillTurn(issues, filled, i, j, counters);
      i := i + 1;
    }
    FillDone(issues, filled, i, j);
  }

  // ---------------------------------------------------------------------------
  // Per-issue transfer

  /** No GitHub issue before index `i` has the trimmed title. */
  predicate NoneTitledBefore(gs: seq<GithubIssue>, title: string, i: int)
    requires 0 <= i <= |gs|
  {
    forall k | 0 <= k < i :: Trim(gs[k].title) != Trim(title)
  }

  /** The first index whose issue has the trimmed title, `|gs|` if none. */
  function FirstTitled(gs: seq<GithubIssue>, title: string): (i: nat)
    ensures i <= |gs| && NoneTitledBefore(gs, title, i)
    ensures i < |gs| ==> Trim(gs[i].title) == Trim(title)
  {
    FindIndex(gs, (g: GithubIssue) => Trim(g.title) == Trim(title))
  }

  lemma NoneTitled(gs: seq<GithubIssue>, title: string)
    requires NoneTitledBefore(gs, title, |gs|)
    ensures forall g | g in gs :: Trim(g.title) != Trim(title)
  {
    forall g | g in gs ensures Trim(g.title) != Trim(title) {
      var k :| 0 <= k < |gs| && gs[k] == g;
    }
  }

  /** `githubIssues.find(i => i.title.trim() === title.trim())` */
  function FindByTrimmedTitle(gs: seq<GithubIssue>, title: string): (r: Option<GithubIssue>)
    ensures r.Some? ==> r.value in gs && Trim(r.value.title) == Trim(title)
    ensures r.Some? ==> exists i | 0 <= i < |gs| :: gs[i] == r.value && NoneTitledBefore(gs, title, i)
    ensures r.None? <==> forall g | g in gs :: Trim(g.title) != Trim(title)
  {
    var i := FirstTitled(gs, title);
    if i < |gs| then Some(gs[i])
    else
      NoneTitled(gs, title);
      None
  }

  /** What happens to one issue. */
  datatype IssueOutcome =
    | Updated(update: Option<StateUpdate>)
    | Created
    | Failed
    | Replaced(replacement: Issue)
    | ReplacementFailed(replacement: Issue)

  /**
   * The decision for one issue: a GitHub issue with the same trimmed title
   * only has its state synced; otherwise the issue is created, and when that
   * fails a replacement issue is tried if replacements are enabled.
   */
  function IssueOutcomeFor(s: Settings, githubIssues: seq<GithubIssue>, createSucceeds: Issue -> bool, issue: Issue): IssueOutcome {
    match FindByTrimmedTitle(githubIssues, issue.title)
    case Some(g) => Updated(IssueStateUpdate(g, issue.state, s.dryRun))
    case None =>
      if createSucceeds(issue) then Created
      else if !s.useReplacementIssuesForCreationFails then Failed
      else
        var replacement := CreateReplacementIssue(issue.iid, issue.title, issue.state);
        if createSucceeds(replacement) then Replaced(replacement) else ReplacementFailed(replacement)
  }

  /** When each outcome happens. */
  lemma IssueOutcomeForSpec(s: Settings, githubIssues: seq<GithubIssue>, createSucceeds: Issue -> bool, issue: Issue)
    ensures var r := IssueOutcomeFor(s, githubIssues, createSucceeds, issue);
      && (r.Updated? <==> exists g | g in githubIssues :: Trim(g.title) == Trim(issue.title))
      && (r.Created? ==> createSucceeds(issue))
      && ((r.Replaced? || r.ReplacementFailed?) ==>
        s.useReplacementIssuesForCreationFails && !createSucceeds(issue)
        && r.replacement == CreateReplacementIssue(issue.iid, issue.title, issue.state))
      && (r.Replaced? ==> createSucceeds(r.replacement))
      && (r.Failed? ==> !s.useReplacementIssuesForCreationFails && !createSucceeds(issue))
  {
    var found := FindByTrimmedTitle(githubIssues, issue.title);
    if found.Some? {
      assert found.value in githubIssues && Trim(found.value.title) == Trim(issue.title);
    }
  }

  /** An existing issue is synced with the update state sync would send. */
  lemma ExistingIssueSynced(s: Settings, githubIssues: seq<GithubIssue>, createSucceeds: Issue -> bool, issue: Issue, g: GithubIssue)
    requires FindByTrimmedTitle(githubIssues, issue.title) == Some(g)
    ensures IssueOutcomeFor(s, githubIssues, createSucceeds, issue) == Updated(IssueStateUpdate(g, issue.state, s.dryRun))
    ensures IssueOutcomeFor(s, githubIssues, createSucceeds, issue).update.Some? ==> issue.state == "closed" && g.state != "closed" && !s.dryRun
  {
  }

  function IsReplaced(o: IssueOutcome): bool {
    o.Replaced?
  }

  function IsReplacementFailure(o: IssueOutcome): bool {
    o.ReplacementFailed?
  }

  /** One turn of the issue loop of transferIssues, with its counter updates. */
  method TransferIssue(s: Settings, githubIssues: seq<GithubIssue>, createSucceeds: Issue -> bool, issue: Issue, counters: IssueCounters)
    returns (outcome: IssueOutcome)
    modifies counters
    ensures outcome == IssueOutcomeFor(s, githubIssues, createSucceeds, issue)
    ensures counters.nrOfPlaceholderIssues == old(counters.nrOfPlaceholderIssues)
    ensures counters.nrOfReplacementIssues == old(counters.nrOfReplacementIssues) + (if outcome.Replaced? then 1 else 0)
    ensures counters.nrOfFailedIssues == old(counters.nrOfFailedIssues) + (if outcome.ReplacementFailed? then 1 else 0)
  {
    var githubIssue := FindByTrimmedTitle(githubIssues, issue.title);
    if githubIssue.None? {
      if createSucceeds(issue) {
        return Created;
      }
      if s.useReplacementIssuesForCreationFails {
        var replacementIssue := CreateReplacementIssue(issue.iid, issue.title, issue.state);
        if createSucceeds(replacementIssue) {
          counters.nrOfReplacementIssues := counters.nrOfReplacementIssues + 1;
          return Replaced(replacementIssue);
        } else {
          counters.nrOfFailedIssues := counters.nrOfFailedIssues + 1;
          return ReplacementFailed(replacementIssue);
        }
      }
      return Failed;
    } else {
      return Updated(IssueStateUpdate(githubIssue.value, issue.state, s.dryRun));
    }
  }

  /** The outcome of each issue, in order. */
  function IssueOutcomes(s: Settings, githubIssues: seq<GithubIssue>, createSucceeds: Issue -> bool, issues: seq<Issue>): seq<IssueOutcome>
  {
    Map(issues, OutcomeOf(s, githubIssues, createSucceeds))
  }

  function OutcomeOf(s: Settings, githubIssues: seq<GithubIssue>, createSucceeds: Issue -> bool): Issue -> IssueOutcome {
    issue => IssueOutcomeFor(s, githubIssues, createSucceeds, issue)
  }

  /** The issues transferIssues works through: selected, sorted and, when enabled, gap-filled. */
  function IssuesToTransfer(s: Settings, env: Env, fetched: seq<Issue>): seq<Issue>
    requires s.usePlaceholderIssuesForMissingIssues ==> GapFillable(SelectIssues(fetched, s.transfer, env))
  {
    if s.usePlaceholderIssuesForMissingIssues then Aligned(SelectIssues(fetched, s.transfer, env))
    else SelectIssues(fetched, s.transfer, env)
  }

  /**
   * transferIssues: selection, placeholder loop, then one decision per issue;
   * the replacement and failure counters count the matching outcomes.
   */
  method TransferIssues(s: Settings, env: Env, fetched: seq<Issue>, githubIssues: seq<GithubIssue>,
                        createSucceeds: Issue -> bool, counters: IssueCounters)
    returns (issues: seq<Issue>, outcomes: seq<IssueOutcome>)
    requires s.usePlaceholderIssuesForMissingIssues ==> GapFillable(SelectIssues(fetched, s.transfer, env))
    modifies counters
    ensures issues == IssuesToTransfer(s, env, fetched)
    ensures outcomes == IssueOutcomes(s, githubIssues, createSucceeds, issues)
    ensures counters.nrOfPlaceholderIssues == old(counters.nrOfPlaceholderIssues) + |issues| - |SelectIssues(fetched, s.transfer, env)|
    ensures counters.nrOfReplacementIssues == old(counters.nrOfReplacementIssues) + Count(outcomes, IsReplaced)
    ensures counters.nrOfFailedIssues == old(counters.nrOfFailedIssues) + Count(outcomes, IsReplacementFailure)
  {
    issues := SelectIssues(fetched, s.transfer, env);
    if s.usePlaceholderIssuesForMissingIssues {
      issues := FillGaps(issues, counters);
    }
    outcomes := TransferEach(s, githubIssues, createSucceeds, issues, counters);
  }

  /** The issue loop of transferIssues. */
  method TransferEach(s: Settings, githubIssues: seq<GithubIssue>, createSucceeds: Issue -> bool, issues: seq<Issue>, counters: IssueCounters)
    returns (outcomes: seq<IssueOutcome>)
    modifies counters
    ensures outcomes == IssueOutcomes(s, githubIssues, createSucceeds, issues)
    ensures counters.nrOfPlaceholderIssues == old(counters.nrOfPlaceholderIssues)
    ensures counters.nrOfReplacementIssues == old(counters.nrOfReplacementIssues) + Count(outcomes, IsReplaced)
    ensures counters.nrOfFailedIssues == old(counters.nrOfFailedIssues) + Count(outcomes, IsReplacementFailure)
  {
    outcomes := [];
    for k := 0 to |issues|
      invariant outcomes == IssueOutcomes(s, githubIssues, createSucceeds, issues[..k])
      invariant counters.nrOfPlaceholderIssues == old(counters.nrOfPlaceholderIssues)
      invariant counters.nrOfReplacementIssues == old(counters.nrOfReplacementIssues) + Count(outcomes, IsReplaced)
      invariant counters.nrOfFailedIssues == old(counters.nrOfFailedIssues) + Count(outcomes, IsReplacementFailure)
    {
      var outcome := TransferIssue(s, githubIssues, createSucceeds, issues[k], counters);
      IssueOutcomesStep(s, githubIssues, createSucceeds, issues, k);
      CountAppend(outcomes, [outcome], IsReplaced);
      CountAppend(outcomes, [outcome], IsReplacementFailure);
      outcomes := outcomes + [outcome];
    }
    assert issues[..|issues|] == issues;
  }

  lemma IssueOutcomesStep(s: Settings, githubIssues: seq<GithubIssue>, createSucceeds: Issue -> bool, issues: seq<Issue>, k: nat)
    requires k < |issues|
    ensures IssueOutcomes(s, githubIssues, createSucceeds, issues[..k + 1])
      == IssueOutcomes(s, githubIssues, createSucceeds, issues[..k]) + [IssueOutcomeFor(s, githubIssues, createSucceeds, issues[k])]
  {
    MapPrefixStep(issues, k, OutcomeOf(s, githubIssues, createSucceeds));
  }

  /** One outcome per issue, each the decision for the issue at the same position. */
  lemma IssueOutcomesAt(s: Settings, githubIssues: seq<GithubIssue>, createSucceeds: Issue -> bool, issues: seq<Issue>)
    ensures |IssueOutcomes(s, githubIssues, createSucceeds, issues)| == |issues|
    ensures forall k | 0 <= k < |issues| ::
      IssueOutcomes(s, githubIssues, createSucceeds, issues)[k] == IssueOutcomeFor(s, githubIssues, createSucceeds, issues[k])
  {
    MapAt(issues, OutcomeOf(s, githubIssues, createSucceeds));
  }

  /** With replacements disabled the replacement and failure counters never move. */
  lemma {:induction false} NoReplacementsNoCounters(s: Settings, githubIssues: seq<GithubIssue>, createSucceeds: Issue -> bool, issues: seq<Issue>)
    requires !s.useReplacementIssuesForCreationFails
    ensures Count(IssueOutcomes(s, githubIssues, createSucceeds, issues), IsReplaced) == 0
    ensures Count(IssueOutcomes(s, githubIssues, createSucceeds, issues), IsReplacementFailure) == 0
  {
    if issues != [] {
      var init := issues[..|issues| - 1];
      var last := IssueOutcomeFor(s, githubIssues, createSucceeds, issues[|issues| - 1]);
      IssueOutcomeForSpec(s, githubIssues, createSucceeds, issues[|issues| - 1]);
      NoReplacementsNoCounters(s, githubIssues, createSucceeds, init);
      CountAppend(IssueOutcomes(s, githubIssues, createSucceeds, init), [last], IsReplaced);
      CountAppend(IssueOutcomes(s, githubIssues, createSucceeds, init), [last], IsReplacementFailure);
    }
  }

  // ---------------------------------------------------------------------------
  // Merge requests

  /** No GitHub issue before index `i` has a trimmed title containing the trimmed title. */
  predicate NoneContainingBefore(gs: seq<GithubIssue>, title: string, i: int)
    requires 0 <= i <= |gs|
  {
    forall k | 0 <= k < i :: !Contains(Trim(gs[k].title), Trim(title))
  }

  /** The first index whose issue's trimmed title contains the trimmed title, `|gs|` if none. */
  function FirstContaining(gs: seq<GithubIssue>, title: string): (i: nat)
    ensures i <= |gs| && NoneContainingBefore(gs, title, i)
    ensures i < |gs| ==> Contains(Trim(gs[i].title), Trim(title))
  {
    FindIndex(gs, (g: GithubIssue) => Contains(Trim(g.title), Trim(title)))
  }

  lemma NoneContaining(gs: seq<GithubIssue>, title: string)
    requires NoneContainingBefore(gs, title, |gs|)
    ensures forall g | g in gs :: !Contains(Trim(g.title), Trim(title))
  {
    forall g | g in gs ensures !Contains(Trim(g.title), Trim(title)) {
      var k :| 0 <= k < |gs| && gs[k] == g;
    }
  }

  /** `githubIssues.find(i => i.title.trim().includes(title.trim()))` */
  function FindContainingTitle(gs: seq<GithubIssue>, title: string): (r: Option<GithubIssue>)
    ensures r.Some? ==> r.value in gs && Contains(Trim(r.value.title), Trim(title))
    ensures r.Some? ==> exists i | 0 <= i < |gs| :: gs[i] == r.value && NoneContainingBefore(gs, title, i)
    ensures r.None? <==> forall g | g in gs :: !Contains(Trim(g.title), Trim(title))
  {
    var i := FirstContaining(gs, title);
    if i < |gs| then Some(gs[i])
    else
      NoneContaining(gs, title);
      None
  }

  datatype RequestOutcome =
    | CreatePullRequest
    | SyncPullRequest(pullRequest: GithubIssue, update: Option<StateUpdate>)
    | ExistsAsIssue(issue: GithubIssue)

  /** The merge request's state after the matching loop has seen it. */
  function RequestStateAfter(pullRequests: seq<GithubIssue>, title: string, state: string, dryRun: bool): string {
    match FindByTrimmedTitle(pullRequests, title)
    case Some(pr) => MergeRequestStateAfterSync(state, pr, dryRun)
    case None => state
  }

  /**
   * The decision for one merge request: created only when no pull request
   * has its trimmed title and no GitHub issue's trimmed title contains it;
   * a matching pull request has its state synced.
   */
  function RequestOutcomeFor(pullRequests: seq<GithubIssue>, githubIssues: seq<GithubIssue>, title: string, state: string, dryRun: bool): RequestOutcome {
    match FindByTrimmedTitle(pullRequests, title)
    case Some(pr) => SyncPullRequest(pr, IssueStateUpdate(pr, MergeRequestStateAfterSync(state, pr, dryRun), dryRun))
    case None =>
      match FindContainingTitle(githubIssues, title)
      case Some(g) => ExistsAsIssue(g)
      case None => CreatePullRequest
  }

  /** When each decision of the matching loop is taken. */
  lemma RequestOutcomeForSpec(pullRequests: seq<GithubIssue>, githubIssues: seq<GithubIssue>, title: string, state: string, dryRun: bool)
    ensures var r := RequestOutcomeFor(pullRequests, githubIssues, title, state, dryRun);
      && (r.CreatePullRequest? <==>
        (forall p | p in pullRequests :: Trim(p.title) != Trim(title))
        && (forall g | g in githubIssues :: !Contains(Trim(g.title), Trim(title))))
      && (r.SyncPullRequest? <==> exists p | p in pullRequests :: Trim(p.title) == Trim(title))
      && (r.SyncPullRequest? ==> r.pullRequest in pullRequests && Trim(r.pullRequest.title) == Trim(title))
      && (r.ExistsAsIssue? ==> r.issue in githubIssues && Contains(Trim(r.issue.title), Trim(title)))
  {
    var pr := FindByTrimmedTitle(pullRequests, title);
    var g := FindContainingTitle(githubIssues, title);
    if pr.Some? {
      assert pr.value in pullRequests && Trim(pr.value.title) == Trim(title);
    } else {
      assert forall p | p in pullRequests :: Trim(p.title) != Trim(title);
      if g.Some? {
        assert g.value in githubIssues && Contains(Trim(g.value.title), Trim(title));
      }
    }
  }

  /** One turn of the matching loop of transferMergeRequests. */
  method TransferMergeRequest(gh: GithubHelper, request: MergeRequest, pullRequests: seq<GithubIssue>, githubIssues: seq<GithubIssue>)
    returns (outcome: RequestOutcome)
    modifies request
    ensures outcome == RequestOutcomeFor(pullRequests, githubIssues, request.title, old(request.state), gh.settings.dryRun)
    ensures request.state == RequestStateAfter(pullRequests, request.title, old(request.state), gh.settings.dryRun)
    ensures request.labels == old(request.labels)
  {
    var githubRequest := FindByTrimmedTitle(pullRequests, request.title);
    var githubIssue := FindContainingTitle(githubIssues, request.title);
    if githubRequest.None? && githubIssue.None? {
      outcome := CreatePullRequest;
    } else if githubRequest.Some? {
      var update := gh.UpdatePullRequestState(githubRequest.value, request);
      outcome := SyncPullRequest(githubRequest.value, update);
    } else {
      outcome := ExistsAsIssue(githubIssue.value);
    }
  }

  /** A fetched merge request passes the open/created/updated filters. */
  predicate RequestSelected(t: TransferSettings, env: Env, m: MergeRequest)
    reads m
  {
    Selected(t, env, "opened", m.state, m.createdAt, m.updatedAt)
  }

  /** The fetched merge requests that pass the filters, in fetched order. */
  function SelectedRequests(ms: seq<MergeRequest>, t: TransferSettings, env: Env): (r: seq<MergeRequest>)
    reads set m | m in ms
    ensures multiset(r) <= multiset(ms)
    ensures forall m | m in r :: RequestSelected(t, env, m)
    ensures forall m | m in ms && RequestSelected(t, env, m) :: m in r
    decreases |ms|
  {
    if ms == [] then []
    else
      var rest := SelectedRequests(ms[1..], t, env);
      assert ms == [ms[0]] + ms[1..];
      assert forall m | m in ms[1..] :: m in ms;
      (if RequestSelected(t, env, ms[0]) then [ms[0]] else []) + rest
  }

  function RequestIid(m: MergeRequest): int {
    m.iid
  }

  /** The merge requests transferMergeRequests walks through: filtered, then sorted by iid. */
  function SelectMergeRequests(fetched: seq<MergeRequest>, t: TransferSettings, env: Env): seq<MergeRequest>
    reads set m | m in fetched
  {
    SortBy(SelectedRequests(fetched, t, env), RequestIid)
  }

  /**
   * The selection is sorted by iid and holds exactly the fetched merge
   * requests that pass the filters, each once.
   */
  lemma SelectMergeRequestsIsSortedSelection(fetched: seq<MergeRequest>, t: TransferSettings, env: Env)
    requires Distinct(fetched)
    ensures SortedBy(SelectMergeRequests(fetched, t, env), RequestIid)
    ensures forall m | m in SelectMergeRequests(fetched, t, env) :: m in fetched && RequestSelected(t, env, m)
    ensures forall m | m in fetched && RequestSelected(t, env, m) :: m in SelectMergeRequests(fetched, t, env)
    ensures Distinct(SelectMergeRequests(fetched, t, env))
  {
    var f := SelectedRequests(fetched, t, env);
    var r := SelectMergeRequests(fetched, t, env);
    forall m | m in r ensures m in fetched && RequestSelected(t, env, m) {
      assert m in multiset(r);
      assert m in multiset(fetched);
    }
    forall m | m in fetched && RequestSelected(t, env, m) ensures m in r {
      assert m in multiset(f);
    }
    SubMultisetDistinct(r, fetched);
  }

  /**
   * transferMergeRequests: the fetched merge requests are filtered and
   * sorted by iid, then each goes through the matching loop.
   */
  method TransferMergeRequests(gh: GithubHelper, fetched: seq<MergeRequest>,
                               pullRequests: seq<GithubIssue>, githubIssues: seq<GithubIssue>)
    returns (requests: seq<MergeRequest>, outcomes: seq<RequestOutcome>)
    requires Distinct(fetched)
    modifies set r | r in fetched
    ensures requests == old(SelectMergeRequests(fetched, gh.settings.transfer, gh.env))
    ensures forall m | m in requests :: m in fetched
    ensures |outcomes| == |requests|
    ensures forall k, j | 0 <= k < |requests| && 0 <= j < |fetched| && requests[k] == fetched[j] ::
      outcomes[k] == RequestOutcomeFor(pullRequests, githubIssues, fetched[j].title, old(fetched[j].state), gh.settings.dryRun)
    ensures forall m | m in fetched ::
      m.state == if m in requests then RequestStateAfter(pullRequests, m.title, old(m.state), gh.settings.dryRun) else old(m.state)
    ensures forall m | m in fetched :: m.labels == old(m.labels)
  {
    requests := SelectMergeRequests(fetched, gh.settings.transfer, gh.env);
    SelectMergeRequestsIsSortedSelection(fetched, gh.settings.transfer, gh.env);
    outcomes := MatchMergeRequests(gh, requests, pullRequests, githubIssues);
  }

  /**
   * The matching loop of transferMergeRequests over the selected merge
   * requests; a synced pull request has its merge request's state updated
   * in place.
   */
  method MatchMergeRequests(gh: GithubHelper, requests: seq<MergeRequest>,
                            pullRequests: seq<GithubIssue>, githubIssues: seq<GithubIssue>)
    returns (outcomes: seq<RequestOutcome>)
    requires Distinct(requests)
    modifies set r | r in requests
    ensures |outcomes| == |requests|
    ensures forall k | 0 <= k < |requests| ::
      outcomes[k] == RequestOutcomeFor(pullRequests, githubIssues, requests[k].title, old(requests[k].state), gh.settings.dryRun)
    ensures forall k | 0 <= k < |requests| ::
      requests[k].state == RequestStateAfter(pullRequests, requests[k].title, old(requests[k].state), gh.settings.dryRun)
    ensures forall k | 0 <= k < |requests| :: requests[k].labels == old(requests[k].labels)
  {
    ghost var before := seq(|requests|, m requires 0 <= m < |requests| reads requests => requests[m].state);
    ghost var after := seq(|requests|, m requires 0 <= m < |requests| =>
      RequestStateAfter(pullRequests, requests[m].title, before[m], gh.settings.dryRun));
    ghost var expected := seq(|requests|, m requires 0 <= m < |requests| =>
      RequestOutcomeFor(pullRequests, githubIssues, requests[m].title, before[m], gh.settings.dryRun));
    outcomes := [];
    for k := 0 to |requests|
      invariant outcomes == expected[..k]
      invariant forall m | 0 <= m < |requests| ::
        requests[m].state == (if m < k then after[m] else before[m]) && requests[m].labels == old(requests[m].labels)
    {
      var outcome := TransferMergeRequest(gh, requests[k], pullRequests, githubIssues);
      PrefixStep(expected, k);
      outcomes := outcomes + [outcome];
    }
    assert expected[..|requests|] == expected;
  }

  // ---------------------------------------------------------------------------
  // Milestones

  function MilestoneId(m: Milestone): int {
    m.id
  }

  function MilestoneSelected(t: TransferSettings, env: Env): Milestone -> bool {
    (m: Milestone) => Selected(t, env, "active", m.state, m.createdAt, m.updatedAt)
  }

  function TitleAbsent(githubMilestones: seq<SimpleMilestone>): Milestone -> bool {
    (m: Milestone) => forall g | g in githubMilestones :: g.title != m.title
  }

  /** The milestones transferMilestones creates: selected, sorted by id, title not yet on GitHub. */
  function MilestonesToCreate(t: TransferSettings, env: Env, fetched: seq<Milestone>, githubMilestones: seq<SimpleMilestone>): seq<Milestone> {
    Filter(SortBy(Filter(fetched, MilestoneSelected(t, env)), MilestoneId), TitleAbsent(githubMilestones))
  }

  lemma MilestonesCreatedWhenAbsent(t: TransferSettings, env: Env, fetched: seq<Milestone>, githubMilestones: seq<SimpleMilestone>)
    ensures SortedBy(MilestonesToCreate(t, env, fetched, githubMilestones), MilestoneId)
    ensures forall m | m in MilestonesToCreate(t, env, fetched, githubMilestones) ::
      m in fetched && MilestoneSelected(t, env)(m) && forall g | g in githubMilestones :: g.title != m.title
    ensures forall m | m in fetched && MilestoneSelected(t, env)(m) && (forall g | g in githubMilestones :: g.title != m.title) ::
      m in MilestonesToCreate(t, env, fetched, githubMilestones)
  {
    var selected := Filter(fetched, MilestoneSelected(t, env));
    var sorted := SortBy(selected, MilestoneId);
    var absent := TitleAbsent(githubMilestones);
    var r := MilestonesToCreate(t, env, fetched, githubMilestones);
    assert r == Filter(sorted, absent);
    FilterKeepsSorted(sorted, absent, MilestoneId);
    FilterSpec(fetched, MilestoneSelected(t, env));
    FilterSpec(sorted, absent);
    forall m | m in r
      ensures m in fetched && MilestoneSelected(t, env)(m) && forall g | g in githubMilestones :: g.title != m.title
    {
      assert m in sorted && absent(m);
      assert m in multiset(sorted);
      assert m in selected;
    }
    forall m | m in fetched && MilestoneSelected(t, env)(m) && (forall g | g in githubMilestones :: g.title != m.title)
      ensures m in r
    {
      assert m in selected;
      assert m in multiset(selected);
      assert m in sorted && absent(m);
    }
  }

  /** The createMilestone payloads for `ms`, in order. */
  function MilestonePayloads(gh: GithubHelper, ms: seq<Milestone>): seq<MilestonePayload>
    reads gh
  {
    Map(ms, gh.MilestoneCreator())
  }

  /** One payload per milestone, each the one createMilestone builds for it. */
  lemma MilestonePayloadsAt(gh: GithubHelper, ms: seq<Milestone>)
    ensures |MilestonePayloads(gh, ms)| == |ms|
    ensures forall k | 0 <= k < |ms| :: MilestonePayloads(gh, ms)[k] == gh.CreateMilestone(ms[k])
  {
    MapAt(ms, gh.MilestoneCreator());
  }

  lemma MilestonePayloadsAppend(gh: GithubHelper, ms: seq<Milestone>, m: Milestone)
    ensures MilestonePayloads(gh, ms + [m]) == MilestonePayloads(gh, ms) + [gh.CreateMilestone(m)]
  {
    MapAppend(ms, m, gh.MilestoneCreator());
  }

  /**
   * transferMilestones: one createMilestone payload per milestone to create,
   * in order; a dry run sends none.
   */
  method TransferMilestones(gh: GithubHelper, fetched: seq<Milestone>, githubMilestones: seq<SimpleMilestone>)
    returns (sent: seq<MilestonePayload>)
    ensures gh.settings.dryRun ==> sent == []
    ensures !gh.settings.dryRun ==>
      var ms := MilestonesToCreate(gh.settings.transfer, gh.env, fetched, githubMilestones);
      |sent| == |ms| && forall k | 0 <= k < |ms| :: sent[k] == gh.CreateMilestone(ms[k])
  {
    var milestones := Filter(fetched, MilestoneSelected(gh.settings.transfer, gh.env));
    milestones := SortBy(milestones, MilestoneId);
    var absent := TitleAbsent(githubMilestones);
    ghost var created: seq<Milestone> := [];
    sent := [];
    for k := 0 to |milestones|
      invariant created == Filter(milestones[..k], absent)
      invariant sent == if gh.settings.dryRun then [] else MilestonePayloads(gh, created)
    {
      var milestone := milestones[k];
      assert milestones[..k + 1] == milestones[..k] + [milestone];
      FilterAppend(milestones[..k], milestone, absent);
      if absent(milestone) {
        var payload := gh.CreateMilestone(milestone);
        MilestonePayloadsAppend(gh, created, milestone);
        if !gh.settings.dryRun {
          sent := sent + [payload];
        }
        created := created + [milestone];
      }
    }
    assert milestones[..|milestones|] == milestones;
    MilestonePayloadsAt(gh, created);
  }

  // ---------------------------------------------------------------------------
  // Labels

  const AttachmentLabelName := "has attachment"
  const AttachmentLabelColor := "#fbca04"
  const MergeRequestLabelName := "gitlab merge request"
  const MergeRequestLabelColor := "#b36b00"

  /** The names the labels get: lower-cased when asked for. */
  function LabelName(name: string, useLowerCase: bool): string {
    if useLowerCase then ToLower(name) else name
  }

  /** The labels transferLabels creates: names not yet on GitHub, in order; a dry run sends none. */
  function LabelsToCreate(payloads: seq<LabelPayload>, githubLabels: seq<string>, dryRun: bool): seq<LabelPayload> {
    if dryRun then [] else Filter(payloads, NameAbsent(githubLabels))
  }

  /** Exactly the payloads whose name GitHub lacks are sent, unless in a dry run. */
  lemma LabelsToCreateSpec(payloads: seq<LabelPayload>, githubLabels: seq<string>, dryRun: bool)
    ensures forall p | p in LabelsToCreate(payloads, githubLabels, dryRun) :: p in payloads && p.name !in githubLabels
    ensures !dryRun ==> forall p | p in payloads && p.name !in githubLabels :: p in LabelsToCreate(payloads, githubLabels, dryRun)
    ensures dryRun ==> LabelsToCreate(payloads, githubLabels, dryRun) == []
  {
    FilterSpec(payloads, NameAbsent(githubLabels));
  }

  function NameAbsent(githubLabels: seq<string>): LabelPayload -> bool {
    (p: LabelPayload) => p.name !in githubLabels
  }

  /** The payload createLabel builds for each label, in order. */
  function LabelPayloads(ls: seq<Label>): (r: seq<LabelPayload>)
    reads set l | l in ls
    ensures |r| == |ls|
    ensures forall k | 0 <= k < |ls| :: r[k].name == ls[k].name && r[k].description == ls[k].description
    ensures forall k | 0 <= k < |ls| :: |ls[k].color| >= 1 ==> ls[k].color == [ls[k].color[0]] + r[k].color
    ensures forall k | 0 <= k < |ls| :: ls[k].color == "" ==> r[k].color == ""
    ensures forall k | 0 <= k < |ls| :: r[k] == LabelPayloadFor(ls[k].name, ls[k].color, ls[k].description)
  {
    seq(|ls|, k requires 0 <= k < |ls| reads set l | l in ls => LabelPayloadFor(ls[k].name, ls[k].color, ls[k].description))
  }

  /** One turn of the loop of transferLabels: the name is lower-cased in place when asked for. */
  method RenameLabel(current: Label, useLowerCase: bool) returns (payload: LabelPayload)
    modifies current
    ensures current.name == LabelName(old(current.name), useLowerCase)
    ensures payload == LabelPayloadFor(current.name, current.color, current.description)
  {
    if useLowerCase {
      current.name := ToLower(current.name);
    }
    payload := LabelPayloadFor(current.name, current.color, current.description);
  }

  /** createLabel is called only outside a dry run and for a name GitHub lacks. */
  method SendIfAbsent(sent: seq<LabelPayload>, payload: LabelPayload, githubLabels: seq<string>, dryRun: bool)
    returns (sent': seq<LabelPayload>)
    ensures sent' == sent + LabelsToCreate([payload], githubLabels, dryRun)
  {
    sent' := sent;
    if !dryRun && payload.name !in githubLabels {
      sent' := sent' + [payload];
    }
  }

  lemma LabelsToCreateStep(payloads: seq<LabelPayload>, k: nat, githubLabels: seq<string>, dryRun: bool)
    requires k < |payloads|
    ensures LabelsToCreate(payloads[..k + 1], githubLabels, dryRun) ==
      LabelsToCreate(payloads[..k], githubLabels, dryRun) + LabelsToCreate([payloads[k]], githubLabels, dryRun)
  {
    assert payloads[..k + 1] == payloads[..k] + [payloads[k]];
    FilterAppend(payloads[..k], payloads[k], NameAbsent(githubLabels));
  }

  /**
   * The loop of transferLabels: each name is lower-cased in place when asked
   * for, then the label is created when GitHub has no label of that name.
   */
  method CreateMissingLabels(all: seq<Label>, githubLabels: seq<string>, useLowerCase: bool, dryRun: bool)
    returns (sent: seq<LabelPayload>)
    requires forall a, b | 0 <= a < b < |all| :: all[a] != all[b]
    modifies set l | l in all
    ensures forall k | 0 <= k < |all| :: all[k].name == LabelName(old(all[k].name), useLowerCase)
    ensures sent == LabelsToCreate(LabelPayloads(all), githubLabels, dryRun)
  {
    ghost var names := seq(|all|, m requires 0 <= m < |all| reads all => all[m].name);
    ghost var targets := seq(|all|, m requires 0 <= m < |all| => LabelName(names[m], useLowerCase));
    ghost var expected := seq(|all|, m requires 0 <= m < |all| =>
      LabelPayloadFor(targets[m], all[m].color, all[m].description));
    sent := [];
    for k := 0 to |all|
      invariant forall m | 0 <= m < |all| :: all[m].name == (if m < k then targets[m] else names[m])
      invariant sent == LabelsToCreate(expected[..k], githubLabels, dryRun)
    {
      var payload := RenameLabel(all[k], useLowerCase);
      assert payload == expected[k];
      LabelsToCreateStep(expected, k, githubLabels, dryRun);
      sent := SendIfAbsent(sent, payload, githubLabels, dryRun);
    }
    assert expected[..|all|] == LabelPayloads(all);
  }

  /**
   * transferLabels: appends the attachment label (optional) and the merge
   * request label, then runs the creation loop over all of them.
   */
  method TransferLabels(labels: seq<Label>, githubLabels: seq<string>, attachmentLabel: bool, useLowerCase: bool, dryRun: bool)
    returns (all: seq<Label>, sent: seq<LabelPayload>)
    requires forall a, b | 0 <= a < b < |labels| :: labels[a] != labels[b]
    modifies set l | l in labels
    ensures |all| == |labels| + (if attachmentLabel then 2 else 1)
    ensures all[..|labels|] == labels
    ensures forall k | 0 <= k < |labels| :: labels[k].name == LabelName(old(labels[k].name), useLowerCase)
    ensures attachmentLabel ==>
      all[|labels|].name == LabelName(AttachmentLabelName, useLowerCase) && all[|labels|].color == AttachmentLabelColor
    ensures all[|all| - 1].name == LabelName(MergeRequestLabelName, useLowerCase) && all[|all| - 1].color == MergeRequestLabelColor
    ensures sent == LabelsToCreate(LabelPayloads(all), githubLabels, dryRun)
  {
    all := labels;
    if attachmentLabel {
      var hasAttachmentLabel := new Label(AttachmentLabelName, AttachmentLabelColor, None);
      all := all + [hasAttachmentLabel];
    }
    var gitlabMergeRequestLabel := new Label(MergeRequestLabelName, MergeRequestLabelColor, None);
    all := all + [gitlabMergeRequestLabel];
    sent := CreateMissingLabels(all, githubLabels, useLowerCase, dryRun);
  }
}
