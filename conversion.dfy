/**
 * GitLab-to-GitHub field conversions of the GitHub helper that depend only
 * on the settings: assignees, labels, state updates, and the milestone and
 * label payloads.
 */
module Conversion {
  import opened Wrappers
  import opened Strings
  import opened Seqs
  import opened Config
  import opened Entities

  /** userIsCreator: the GitLab author is the owner of the GitHub token, directly or through the usermap. */
  predicate UserIsCreator(s: Settings, author: Option<User>) {
    author.Some?
    && (Lookup(s.usermap, author.value.username) == Some(s.github.tokenOwner)
        || author.value.username == s.github.tokenOwner)
  }

  /**
   * Without a usermap entry for the author, only the token owner's own GitLab
   * account counts as the creator; a missing author never does.
   */
  lemma UserIsCreatorUnmapped(s: Settings, author: Option<User>)
    requires author.Some? ==> Lookup(s.usermap, author.value.username).None?
    ensures UserIsCreator(s, author) <==> author.Some? && author.value.username == s.github.tokenOwner
  {
  }

  /** An author the usermap sends to the token owner is the creator, whatever the GitLab name. */
  lemma MappedToOwnerIsCreator(s: Settings, u: User)
    requires Lookup(s.usermap, u.username) == Some(s.github.tokenOwner)
    ensures UserIsCreator(s, Some(u))
  {
  }

  // ---------------------------------------------------------------------------
  // Assignees

  /** The GitHub login an assignee becomes, if any. */
  function AssigneeLogin(s: Settings, u: User): Option<string> {
    if s.github.username == Some(u.username) then Some(u.username)
    else if Lookup(s.usermap, u.username).Some? && Lookup(s.usermap, u.username).value != "" then Lookup(s.usermap, u.username)
    else None
  }

  function MappedAssignees(s: Settings, users: seq<User>): seq<string> {
    if users == [] then []
    else
      var login := AssigneeLogin(s, users[0]);
      (if login.Some? then [login.value] else []) + MappedAssignees(s, users[1..])
  }

  /** Every GitHub assignee is the configured GitHub user or a non-empty usermap value. */
  lemma {:induction false} MappedAssigneesAreKnownLogins(s: Settings, users: seq<User>)
    ensures forall a | a in MappedAssignees(s, users) ::
      Some(a) == s.github.username || (a != "" && exists i | 0 <= i < |s.usermap| :: s.usermap[i].1 == a)
  {
    if users != [] {
      MappedAssigneesAreKnownLogins(s, users[1..]);
      var login := AssigneeLogin(s, users[0]);
      if login.Some? && Some(login.value) != s.github.username {
        var u := users[0].username;
        assert (u, login.value) in s.usermap;
      }
    }
  }

  /** When every assignee has a GitHub login, all of them are kept, in order. */
  lemma {:induction false} MappedAssigneesKeepsKnownUsers(s: Settings, users: seq<User>)
    requires forall u | u in users :: AssigneeLogin(s, u).Some?
    ensures |MappedAssignees(s, users)| == |users|
    ensures forall k | 0 <= k < |users| :: MappedAssignees(s, users)[k] == AssigneeLogin(s, users[k]).value
  {
    if users != [] {
      assert users[0] in users;
      MappedAssigneesKeepsKnownUsers(s, users[1..]);
      forall k | 1 <= k < |users|
        ensures MappedAssignees(s, users)[k] == AssigneeLogin(s, users[k]).value
      {
        assert users[1..][k - 1] == users[k];
      }
    }
  }

  /** convertAssignees: walks the assignees and collects their GitHub logins. */
  method ConvertAssignees(s: Settings, item: Item) returns (assignees: seq<string>)
    ensures item.assignees.None? ==> assignees == []
    ensures item.assignees.Some? ==> assignees == MappedAssignees(s, item.assignees.value)
  {
    if item.assignees.None? {
      return [];
    }
    var users := item.assignees.value;
    assignees := [];
    var i := 0;
    while i < |users|
      invariant 0 <= i <= |users|
      invariant assignees + MappedAssignees(s, users[i..]) == MappedAssignees(s, users)
    {
      ghost var before := assignees;
      var u := users[i];
      if s.github.username == Some(u.username) {
        assignees := assignees + [u.username];
      } else if Lookup(s.usermap, u.username).Some? && Lookup(s.usermap, u.username).value != "" {
        assignees := assignees + [Lookup(s.usermap, u.username).value];
      }
      AssigneesStep(s, users, i, before, assignees);
      i := i + 1;
    }
    assert users[|users|..] == [];
  }

  /** One turn of the assignee loop moves one user's login from the rest to the result. */
  lemma AssigneesStep(s: Settings, users: seq<User>, i: nat, before: seq<string>, after: seq<string>)
    requires i < |users|
    requires after == before + (if AssigneeLogin(s, users[i]).Some? then [AssigneeLogin(s, users[i]).value] else [])
    ensures after + MappedAssignees(s, users[i + 1..]) == before + MappedAssignees(s, users[i..])
  {
    assert users[i..][1..] == users[i + 1..];
  }

  // ---------------------------------------------------------------------------
  // Labels

  /** A label that should have been removed when the item was closed. */
  predicate IsWorkflowLabel(l: string) {
    ToLower(l) == "doing" || ToLower(l) == "to do"
  }

  /** The description links to an upload and uploads are not moved to S3. */
  predicate HasAttachmentLink(s: Settings, item: Item) {
    item.description.Some? && Contains(item.description.value, "/uploads/") && s.s3.None?
  }

  function KeptLabels(s: Settings, item: Item): seq<string> {
    if item.labels.None? then []
    else
      var kept := Filter(item.labels.value, (l: string) => item.state != "closed" || !IsWorkflowLabel(l));
      if s.useLowerCaseLabels then seq(|kept|, i requires 0 <= i < |kept| => ToLower(kept[i])) else kept
  }

  /** convertLabels */
  function ConvertLabels(s: Settings, item: Item): (r: seq<string>)
    ensures |r| >= |KeptLabels(s, item)|
    ensures HasAttachmentLink(s, item) <==> |r| == |KeptLabels(s, item)| + 1
    ensures HasAttachmentLink(s, item) ==> r[|r| - 1] == "has attachment"
    ensures !HasAttachmentLink(s, item) ==> r == KeptLabels(s, item)
    ensures r[..|KeptLabels(s, item)|] == KeptLabels(s, item)
  {
    KeptLabels(s, item) + (if HasAttachmentLink(s, item) then ["has attachment"] else [])
  }

  /** A closed item carries no "doing" or "to do" label, in any letter case. */
  lemma ClosedItemsDropWorkflowLabels(s: Settings, item: Item)
    requires item.state == "closed"
    ensures forall l | l in ConvertLabels(s, item) :: !IsWorkflowLabel(l)
  {
    var r := ConvertLabels(s, item);
    forall l | l in r
      ensures !IsWorkflowLabel(l)
    {
      if l == "has attachment" {
        assert ToLower(l) == l;
      } else if item.labels.Some? {
        var kept := Filter(item.labels.value, (l: string) => item.state != "closed" || !IsWorkflowLabel(l));
        FilterSpec(item.labels.value, (l: string) => item.state != "closed" || !IsWorkflowLabel(l));
        if s.useLowerCaseLabels {
          var k :| 0 <= k < |r| && r[k] == l;
          assert k < |kept|;
          ToLowerIdempotent(kept[k]);
          assert kept[k] in kept;
        }
      }
    }
  }

  /** An item that is not closed keeps all its labels, in order (lower-cased when configured). */
  lemma OpenItemsKeepLabels(s: Settings, item: Item)
    requires item.state != "closed" && item.labels.Some?
    ensures |KeptLabels(s, item)| == |item.labels.value|
    ensures forall k | 0 <= k < |item.labels.value| ::
      KeptLabels(s, item)[k] == (if s.useLowerCaseLabels then ToLower(item.labels.value[k]) else item.labels.value[k])
  {
    FilterAll(item.labels.value, (l: string) => item.state != "closed" || !IsWorkflowLabel(l));
  }

  lemma {:induction false} FilterAll<T>(xs: seq<T>, p: T -> bool)
    requires forall x | x in xs :: p(x)
    ensures Filter(xs, p) == xs
  {
    if xs != [] {
      assert xs[0] in xs;
      FilterAll(xs[1..], p);
      assert xs == [xs[0]] + xs[1..];
    }
  }

  // ---------------------------------------------------------------------------
  // State updates

  datatype StateUpdate = StateUpdate(issueNumber: int, state: string)

  /** updateIssueState: the update sent for a GitLab state, if any. */
  function IssueStateUpdate(destination: GithubIssue, sourceState: string, dryRun: bool): (r: Option<StateUpdate>)
    ensures r.Some? <==> sourceState == "closed" && destination.state != "closed" && !dryRun
    ensures r.Some? ==> r.value == StateUpdate(destination.number, "closed")
  {
    if sourceState != "closed" || destination.state == "closed" then None
    else if dryRun then None
    else Some(StateUpdate(destination.number, sourceState))
  }

  /** The state updatePullRequestState leaves on the merge request: merged becomes closed. */
  function MergeRequestStateAfterSync(state: string, pullRequest: GithubIssue, dryRun: bool): string {
    if state == "merged" && pullRequest.state != "closed" && !dryRun then "closed" else state
  }

  /** A merged or closed merge request closes its open pull request, except in a dry run. */
  lemma PullRequestSyncCloses(state: string, pullRequest: GithubIssue, dryRun: bool)
    ensures IssueStateUpdate(pullRequest, MergeRequestStateAfterSync(state, pullRequest, dryRun), dryRun).Some?
      <==> (state == "merged" || state == "closed") && pullRequest.state != "closed" && !dryRun
    ensures dryRun ==> MergeRequestStateAfterSync(state, pullRequest, dryRun) == state
  {
  }

  // ---------------------------------------------------------------------------
  // Milestone and label payloads

  datatype MilestonePayload = MilestonePayload(title: string, description: string, state: string, dueOn: Option<string>)

  /** createMilestone: `description` is the already converted GitLab description. */
  function MilestonePayloadFor(m: Milestone, description: string): (p: MilestonePayload)
    ensures p.title == m.title && p.description == description
    ensures p.state == "open" <==> m.state == "active"
    ensures p.state == "open" || p.state == "closed"
    ensures p.dueOn.Some? <==> m.dueDate.Some? && m.dueDate.value != ""
    ensures p.dueOn.Some? ==> p.dueOn.value == m.dueDate.value + "T00:00:00Z"
  {
    MilestonePayload(
      m.title, description,
      if m.state == "active" then "open" else "closed",
      if m.dueDate.Some? && m.dueDate.value != "" then Some(m.dueDate.value + "T00:00:00Z") else None)
  }

  datatype LabelPayload = LabelPayload(name: string, color: string, description: Option<string>)

  /** createLabel: GitLab colours start with '#', GitHub wants them without it. */
  function LabelPayloadFor(name: string, color: string, description: Option<string>): (p: LabelPayload)
    ensures p.name == name && p.description == description
    ensures |color| >= 1 ==> color == [color[0]] + p.color
    ensures color == "" ==> p.color == ""
  {
    LabelPayload(name, if |color| >= 1 then color[1..] else "", description)
  }
}
