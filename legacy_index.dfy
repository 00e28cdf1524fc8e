/**
 * The fixed texts of the legacy placeholder issue, kept apart from the
 * proofs that do not need them.
 */
module LegacyTemplates {
  const PlaceholderTitle := "placeholder issue for issue which does not exist and was probably deleted in GitLab"
  const PlaceholderDescription := "This is to ensure the issue numbers in GitLab and GitHub are the same"
}

/**
 * The legacy migration script (index.js): the gap-filling loop with its
 * extra increment, the issue and note loops, the attribution line, the
 * rewrite whose result is dropped, the state update and the milestone and
 * label payloads. There is no dry run and no replacement issue here.
 */
module LegacyIndex {
  import opened Wrappers
  import opened LegacyTemplates
  import opened Strings
  import opened Seqs
  import opened Scanner
  import opened Config
  import opened Entities
  import opened NoteClassifier
  import opened Conversion
  import opened LegacyUtils
  import TextRewrite
  import GithubHelper
  import Migration

  /**
   * An element of the legacy issue array: a GitLab issue as fetched, or the
   * one shared `placeholderItem`, which has neither an id nor an iid.
   */
  datatype LegacyIssue =
    | Fetched(id: int, iid: int, title: string, state: string)
    | Placeholder
  {
    function Title(): string {
      if Placeholder? then PlaceholderTitle else title
    }

    function State(): string {
      if Placeholder? then "closed" else state
    }

    /** `issue.iid == n`; an undefined iid equals no number. */
    predicate IidIs(n: int) {
      Fetched? && iid == n
    }
  }

  function IsFetched(): LegacyIssue -> bool {
    (x: LegacyIssue) => x.Fetched?
  }

  /** The sort key `a.id - b.id` compares; the placeholder is never sorted. */
  function IssueId(x: LegacyIssue): int {
    if x.Fetched? then x.id else 0
  }

  // ---------------------------------------------------------------------------
  // The gap-filling loop

  /**
   * The array the loop leaves, for the elements still to visit when the loop
   * index is `i`: an element whose iid is not `i + 1` gets the placeholder in
   * front of it, and then the index moves past both, so each element of the
   * original array is compared exactly once.
   */
  function GapFilled(rest: seq<LegacyIssue>, i: nat): (r: seq<LegacyIssue>)
    ensures |rest| <= |r| <= 2 * |rest|
  {
    if rest == [] then []
    else if !rest[0].IidIs(i + 1) then [Placeholder, rest[0]] + GapFilled(rest[1..], i + 2)
    else [rest[0]] + GapFilled(rest[1..], i + 1)
  }

  /** The `for` loop of transferIssues that splices placeholders into `issues`. */
  method FillGaps(issues: seq<LegacyIssue>) returns (filled: seq<LegacyIssue>)
    ensures filled == GapFilled(issues, 0)
  {
    filled := issues;
    var i := 0;
    while i < |filled|
      invariant 0 <= i <= |filled|
      invariant filled[..i] + GapFilled(filled[i..], i) == GapFilled(issues, 0)
      decreases |filled| - i
    {
      if !filled[i].IidIs(i + 1) {
        SpliceStep(filled, i);
        filled := filled[..i] + [Placeholder] + filled[i..];
        i := i + 1;
      } else {
        KeepStep(filled, i);
      }
      i := i + 1;
    }
    assert filled[i..] == [];
  }

  lemma GapFilledStep(rest: seq<LegacyIssue>, i: nat)
    requires rest != []
    ensures !rest[0].IidIs(i + 1) ==> GapFilled(rest, i) == [Placeholder, rest[0]] + GapFilled(rest[1..], i + 2)
    ensures rest[0].IidIs(i + 1) ==> GapFilled(rest, i) == [rest[0]] + GapFilled(rest[1..], i + 1)
  {
  }

  /** A placeholder spliced in at `i`: the loop then stands at `i + 2` with the same outcome. */
  lemma SpliceStep(filled: seq<LegacyIssue>, i: nat)
    requires i < |filled| && !filled[i].IidIs(i + 1)
    ensures var spliced := filled[..i] + [Placeholder] + filled[i..];
      spliced[..i + 2] + GapFilled(spliced[i + 2..], i + 2) == filled[..i] + GapFilled(filled[i..], i)
  {
    var spliced := filled[..i] + [Placeholder] + filled[i..];
    GapFilledStep(filled[i..], i);
    assert filled[i..][0] == filled[i];
    assert filled[i..][1..] == filled[i + 1..];
    assert spliced[..i + 2] == filled[..i] + [Placeholder, filled[i]];
    assert spliced[i + 2..] == filled[i + 1..];
  }

  /** An element already in place: the loop moves on by one with the same outcome. */
  lemma KeepStep(filled: seq<LegacyIssue>, i: nat)
    requires i < |filled| && filled[i].IidIs(i + 1)
    ensures filled[..i + 1] + GapFilled(filled[i + 1..], i + 1) == filled[..i] + GapFilled(filled[i..], i)
  {
    GapFilledStep(filled[i..], i);
    assert filled[i..][0] == filled[i];
    assert filled[i..][1..] == filled[i + 1..];
    assert filled[..i + 1] == filled[..i] + [filled[i]];
  }

  /** Dropping the placeholders gives back the fetched issues, in their order. */
  lemma {:induction false} GapFilledKeepsIssues(rest: seq<LegacyIssue>, i: nat)
    requires forall x | x in rest :: x.Fetched?
    ensures Filter(GapFilled(rest, i), IsFetched()) == rest
  {
    if rest != [] {
      var x := rest[0];
      GapFilledStep(rest, i);
      if !x.IidIs(i + 1) {
        var tail := GapFilled(rest[1..], i + 2);
        GapFilledKeepsIssues(rest[1..], i + 2);
        FilterCons(x, tail, IsFetched());
        FilterCons(Placeholder, [x] + tail, IsFetched());
        assert [Placeholder, x] + tail == [Placeholder] + ([x] + tail);
      } else {
        var tail := GapFilled(rest[1..], i + 1);
        GapFilledKeepsIssues(rest[1..], i + 1);
        FilterCons(x, tail, IsFetched());
      }
      assert rest == [x] + rest[1..];
    }
  }

  /** Every placeholder sits right in front of a fetched issue: one placeholder per gap, however wide. */
  lemma {:induction false} PlaceholderBeforeIssue(rest: seq<LegacyIssue>, i: nat)
    requires forall x | x in rest :: x.Fetched?
    ensures forall k | 0 <= k < |GapFilled(rest, i)| && GapFilled(rest, i)[k].Placeholder? ::
      k + 1 < |GapFilled(rest, i)| && GapFilled(rest, i)[k + 1].Fetched?
  {
    if rest != [] {
      if !rest[0].IidIs(i + 1) {
        PlaceholderBeforeIssue(rest[1..], i + 2);
        var tail := GapFilled(rest[1..], i + 2);
        assert forall k | 2 <= k < 2 + |tail| :: ([Placeholder, rest[0]] + tail)[k] == tail[k - 2];
      } else {
        PlaceholderBeforeIssue(rest[1..], i + 1);
        var tail := GapFilled(rest[1..], i + 1);
        assert forall k | 1 <= k < 1 + |tail| :: ([rest[0]] + tail)[k] == tail[k - 1];
      }
    }
  }

  /** An array whose iids already count up from `i + 1` is left as it is. */
  lemma {:induction false} ContiguousUnchanged(rest: seq<LegacyIssue>, i: nat)
    requires forall k | 0 <= k < |rest| :: rest[k].IidIs(i + k + 1)
    ensures GapFilled(rest, i) == rest
  {
    if rest != [] {
      assert rest[0].IidIs(i + 1);
      assert forall k | 0 <= k < |rest[1..]| :: rest[1..][k] == rest[k + 1];
      ContiguousUnchanged(rest[1..], i + 1);
    }
  }

  /**
   * Two missing numbers get one placeholder: the lone issue 3 ends up second,
   * so GitHub gives it number 2.
   */
  lemma WideGapMisnumbers(x: LegacyIssue)
    requires x.Fetched? && x.iid == 3
    ensures GapFilled([x], 0) == [Placeholder, x]
    ensures !GapFilled([x], 0)[1].IidIs(2)
  {
    assert [x][1..] == [];
  }

  // ---------------------------------------------------------------------------
  // Issues

  /** updateIssueState: an update only for a closed GitLab issue whose GitHub issue is not closed. */
  function UpdateIssueState(ghIssue: GithubIssue, state: string): (r: Option<StateUpdate>)
    ensures r.Some? <==> state == "closed" && ghIssue.state != "closed"
    ensures r.Some? ==> r.value == StateUpdate(ghIssue.number, "closed")
  {
    if state != "closed" || ghIssue.state == "closed" then None
    else Some(StateUpdate(ghIssue.number, state))
  }

  /** The legacy update is the current one without the dry-run switch. */
  lemma UpdateIssueStateAsCurrent(ghIssue: GithubIssue, state: string)
    ensures UpdateIssueState(ghIssue, state) == IssueStateUpdate(ghIssue, state, false)
  {
  }

  datatype IssueAction =
    | CreateIssue(issue: LegacyIssue)
    | UpdateState(ghIssue: GithubIssue, update: Option<StateUpdate>)

  /** One turn of the issue loop: create unless a GitHub issue has the same trimmed title. */
  function IssueActionFor(ghIssues: seq<GithubIssue>, issue: LegacyIssue): IssueAction {
    match Migration.FindByTrimmedTitle(ghIssues, issue.Title())
    case None => CreateIssue(issue)
    case Some(g) => UpdateState(g, UpdateIssueState(g, issue.State()))
  }

  /** An issue is created exactly when no GitHub issue has its trimmed title; otherwise that issue's state is synced. */
  lemma IssueActionForSpec(ghIssues: seq<GithubIssue>, issue: LegacyIssue)
    ensures var r := IssueActionFor(ghIssues, issue);
      && (r.CreateIssue? <==> forall g | g in ghIssues :: Trim(g.title) != Trim(issue.Title()))
      && (r.CreateIssue? ==> r.issue == issue)
      && (r.UpdateState? ==>
        r.ghIssue in ghIssues && Trim(r.ghIssue.title) == Trim(issue.Title())
        && r.update == UpdateIssueState(r.ghIssue, issue.State()))
  {
    var found := Migration.FindByTrimmedTitle(ghIssues, issue.Title());
    if found.Some? {
      assert found.value in ghIssues && Trim(found.value.title) == Trim(issue.Title());
    }
  }

  /** One turn of the issue loop: look the title up among the GitHub issues. */
  method IssueTurn(ghIssues: seq<GithubIssue>, issue: LegacyIssue) returns (action: IssueAction)
    ensures action == IssueActionFor(ghIssues, issue)
  {
    var ghIssue := Migration.FindByTrimmedTitle(ghIssues, issue.Title());
    if ghIssue.None? {
      action := CreateIssue(issue);
    } else {
      action := UpdateState(ghIssue.value, UpdateIssueState(ghIssue.value, issue.State()));
    }
  }

  /**
   * transferIssues: sort by id, fill the gaps, then decide for each element
   * of the filled array in order.
   */
  method TransferIssues(fetched: seq<LegacyIssue>, ghIssues: seq<GithubIssue>)
    returns (issues: seq<LegacyIssue>, actions: seq<IssueAction>)
    ensures issues == GapFilled(SortBy(fetched, IssueId), 0)
    ensures |actions| == |issues|
    ensures forall k | 0 <= k < |issues| :: actions[k] == IssueActionFor(ghIssues, issues[k])
  {
    issues := SortBy(fetched, IssueId);
    issues := FillGaps(issues);
    actions := DecideIssues(issues, ghIssues);
  }

  /** The loop of transferIssues over the filled array. */
  method DecideIssues(issues: seq<LegacyIssue>, ghIssues: seq<GithubIssue>) returns (actions: seq<IssueAction>)
    ensures |actions| == |issues|
    ensures forall k | 0 <= k < |issues| :: actions[k] == IssueActionFor(ghIssues, issues[k])
  {
    var decide := (x: LegacyIssue) => IssueActionFor(ghIssues, x);
    actions := [];
    for k := 0 to |issues|
      invariant actions == Map(issues[..k], decide)
    {
      var action := IssueTurn(ghIssues, issues[k]);
      MapPrefixStep(issues, k, decide);
      actions := actions + [action];
    }
    assert issues[..|issues|] == issues;
    MapAt(issues, decide);
  }

  /**
   * All placeholders share one title, so when GitHub already has an issue
   * with that title, every placeholder is taken for it and closes it.
   */
  lemma PlaceholdersMatchOneIssue(ghIssues: seq<GithubIssue>, g: GithubIssue)
    requires Migration.FindByTrimmedTitle(ghIssues, PlaceholderTitle) == Some(g)
    requires g.state != "closed"
    ensures IssueActionFor(ghIssues, Placeholder) == UpdateState(g, Some(StateUpdate(g.number, "closed")))
  {
  }

  // ---------------------------------------------------------------------------
  // The attribution line and the dropped rewrite

  /** The item is not null and has a non-null author username and creation date. */
  predicate Attributed(item: Option<Origin>) {
    item.Some? && item.value.username.Some? && item.value.createdAt.Some?
  }

  /** addMigrationLine */
  function AddMigrationLine(str: string, item: Option<Origin>, env: Env): (r: string)
    ensures !Attributed(item) ==> r == str
    ensures Attributed(item) ==>
      r == "In GitLab by @" + item.value.username.value + " on " + env.formatDate(item.value.createdAt.value) + "\n\n" + str
      && EndsWith(r, "\n\n" + str)
  {
    if !Attributed(item) then str
    else
      var head := "In GitLab by @" + item.value.username.value + " on " + env.formatDate(item.value.createdAt.value);
      ConcatAffixes(head, "\n\n" + str);
      head + ("\n\n" + str)
  }

  /** With a non-empty author and date and no diff position, the legacy line is the current one. */
  lemma AddMigrationLineAsCurrent(str: string, item: Option<Origin>, repoLink: string, env: Env)
    requires TextRewrite.HasAttribution(item) && item.value.position.None?
    ensures AddMigrationLine(str, item, env) == TextRewrite.AddMigrationLine(str, item, repoLink, env)
  {
  }

  /** An empty username is not null: the legacy code still adds a line, the current one does not. */
  lemma EmptyUsernameStillAttributed(str: string, createdAt: string, repoLink: string, env: Env)
    ensures AddMigrationLine(str, Some(Origin(Some(""), Some(createdAt), None)), env) != str
    ensures TextRewrite.AddMigrationLine(str, Some(Origin(Some(""), Some(createdAt), None)), repoLink, env) == str
  {
    var r := AddMigrationLine(str, Some(Origin(Some(""), Some(createdAt), None)), env);
    assert |r| > |str|;
  }

  /** The callback of the dropped replace: maps a matched `@user` or `project#`. */
  function Replacer(usermap: Option<StrMap>, projectmap: Option<StrMap>, matched: string): string {
    if StartsWith(matched, "@") then "@" + Show(Lookup(if usermap.Some? then usermap.value else [], matched[1..]))
    else if EndsWith(matched, "#") then
      Show(Lookup(if projectmap.Some? then projectmap.value else [], matched[..|matched| - 1])) + "#"
    else matched
  }

  /** The expression of generateUserProjectRe at `i`: the first alternative that occurs there. */
  function UserProjectAt(usermap: Option<StrMap>, projectmap: Option<StrMap>, s: string, i: nat): (r: Option<Match>)
    ensures r.Some? ==> exists a | a in Alternatives(usermap, projectmap) ::
      OccursAt(s, a, i) && r.value == Match(|a|, Replacer(usermap, projectmap, a))
    ensures r.None? ==> forall a | a in Alternatives(usermap, projectmap) :: !OccursAt(s, a, i)
  {
    var alternatives := Alternatives(usermap, projectmap);
    match TextRewrite.FirstAlternative(alternatives, a => OccursAt(s, a, i))
    case None => None
    case Some(j) => Some(Match(|alternatives[j]|, Replacer(usermap, projectmap, alternatives[j])))
  }

  function UserProjectRefs(usermap: Option<StrMap>, projectmap: Option<StrMap>): Matcher {
    (s: string, i: nat) => UserProjectAt(usermap, projectmap, s, i)
  }

  /**
   * convertIssuesAndComments as written: the string the replace builds is
   * dropped, so the result is the text with its attribution line and nothing
   * in it is rewritten.
   */
  function ConvertIssuesAndComments(usermap: Option<StrMap>, projectmap: Option<StrMap>, env: Env, str: string, item: Option<Origin>): (r: string)
    ensures r == AddMigrationLine(str, item, env)
  {
    if KeysOrNone(usermap) == [] && KeysOrNone(projectmap) == [] then
      AddMigrationLine(str, item, env)
    else
      var strWithMigLine := AddMigrationLine(str, item, env);
      var dropped := ReplaceAll(UserProjectRefs(usermap, projectmap), strWithMigLine);
      strWithMigLine
  }

  /** The evidently intended conversion: the rewritten string is the result. */
  function ConvertIssuesAndCommentsIntended(usermap: Option<StrMap>, projectmap: Option<StrMap>, env: Env, str: string, item: Option<Origin>): string {
    if KeysOrNone(usermap) == [] && KeysOrNone(projectmap) == [] then
      AddMigrationLine(str, item, env)
    else
      ReplaceAll(UserProjectRefs(usermap, projectmap), AddMigrationLine(str, item, env))
  }

  /** The intended conversion maps a mention of the first usermap key to its GitHub name. */
  lemma IntendedRewritesMention(usermap: StrMap, projectmap: Option<StrMap>, env: Env, k: string, v: string)
    requires |usermap| >= 1 && usermap[0] == (k, v)
    ensures ConvertIssuesAndCommentsIntended(Some(usermap), projectmap, env, "@" + k, None) == "@" + v
  {
    var s := "@" + k;
    var alternatives := Alternatives(Some(usermap), projectmap);
    assert alternatives[0] == s;
    assert OccursAt(s, s, 0);
    assert s[1..] == k;
    assert Lookup(usermap, k) == Some(v);
    ScanAtMatch(UserProjectRefs(Some(usermap), projectmap), s, 0);
  }

  /** As written, the same mention comes back unchanged. */
  lemma MentionNotRewritten(usermap: StrMap, projectmap: Option<StrMap>, env: Env, k: string, v: string)
    requires |usermap| >= 1 && usermap[0] == (k, v) && k != v
    ensures ConvertIssuesAndComments(Some(usermap), projectmap, env, "@" + k, None) == "@" + k
    ensures ConvertIssuesAndComments(Some(usermap), projectmap, env, "@" + k, None)
         != ConvertIssuesAndCommentsIntended(Some(usermap), projectmap, env, "@" + k, None)
  {
    IntendedRewritesMention(usermap, projectmap, env, k, v);
    assert ("@" + k)[1..] == k && ("@" + v)[1..] == v;
  }

  // ---------------------------------------------------------------------------
  // Notes

  datatype CommentRequest = CommentRequest(number: int, body: string)

  function Migrated(): Note -> bool {
    (n: Note) => !LegacyIsEventNote(n.body)
  }

  function CommentFor(usermap: Option<StrMap>, projectmap: Option<StrMap>, env: Env, number: int, n: Note): CommentRequest {
    CommentRequest(number, ConvertIssuesAndComments(usermap, projectmap, env, n.body, Some(n.AsOrigin())))
  }

  function Commenter(usermap: Option<StrMap>, projectmap: Option<StrMap>, env: Env, number: int): Note -> CommentRequest {
    (n: Note) => CommentFor(usermap, projectmap, env, number, n)
  }

  /** The comments createIssueComments posts for notes already in order. */
  function CommentRequests(usermap: Option<StrMap>, projectmap: Option<StrMap>, env: Env, number: int, ns: seq<Note>): seq<CommentRequest> {
    FilterMap(ns, Migrated(), Commenter(usermap, projectmap, env, number))
  }

  /** One comment per migrated note, in order, for that note. */
  lemma CommentRequestsOfMigrated(usermap: Option<StrMap>, projectmap: Option<StrMap>, env: Env, number: int, ns: seq<Note>)
    ensures |CommentRequests(usermap, projectmap, env, number, ns)| == |Filter(ns, Migrated())|
    ensures forall k | 0 <= k < |Filter(ns, Migrated())| ::
      CommentRequests(usermap, projectmap, env, number, ns)[k] == CommentFor(usermap, projectmap, env, number, Filter(ns, Migrated())[k])
  {
    FilterMapIsMapOfFilter(ns, Migrated(), Commenter(usermap, projectmap, env, number));
    MapAt(Filter(ns, Migrated()), Commenter(usermap, projectmap, env, number));
  }

  /** One more note adds its comment unless it is a status or bookkeeping note. */
  lemma CommentRequestsStep(usermap: Option<StrMap>, projectmap: Option<StrMap>, env: Env, number: int, ns: seq<Note>, k: nat)
    requires k < |ns|
    ensures CommentRequests(usermap, projectmap, env, number, ns[..k + 1])
         == CommentRequests(usermap, projectmap, env, number, ns[..k])
            + (if LegacyIsEventNote(ns[k].body) then [] else [CommentFor(usermap, projectmap, env, number, ns[k])])
  {
    assert ns[..k + 1] == ns[..k] + [ns[k]];
    FilterMapAppend(ns[..k], ns[k], Migrated(), Commenter(usermap, projectmap, env, number));
  }

  /**
   * createIssueComments: the notes in id order, status and bookkeeping notes
   * skipped, one comment per remaining note with the converted body.
   */
  method CreateIssueComments(usermap: Option<StrMap>, projectmap: Option<StrMap>, env: Env, ghIssue: GithubIssue, notes: seq<Note>)
    returns (sent: seq<CommentRequest>)
    ensures sent == CommentRequests(usermap, projectmap, env, ghIssue.number, SortBy(notes, GithubHelper.NoteId))
  {
    sent := [];
    if |notes| == 0 {
      return;
    }
    var sorted := SortBy(notes, GithubHelper.NoteId);
    for k := 0 to |sorted|
      invariant sent == CommentRequests(usermap, projectmap, env, ghIssue.number, sorted[..k])
    {
      var note := sorted[k];
      CommentRequestsStep(usermap, projectmap, env, ghIssue.number, sorted, k);
      var comment := if LegacyIsEventNote(note.body) then [] else [CommentFor(usermap, projectmap, env, ghIssue.number, note)];
      sent := sent + comment;
    }
    assert sorted[..|sorted|] == sorted;
  }

  // ---------------------------------------------------------------------------
  // Milestones and labels

  /** createMilestone: the current payload, with the description passed through unconverted. */
  function CreateMilestone(m: Milestone): (p: MilestonePayload)
    ensures p == MilestonePayloadFor(m, m.description)
    ensures p.description == m.description
  {
    MilestonePayload(
      m.title, m.description,
      if m.state == "active" then "open" else "closed",
      if m.dueDate.Some? && m.dueDate.value != "" then Some(m.dueDate.value + "T00:00:00Z") else None)
  }

  /** createLabel: name and colour without its first character; no description is sent. */
  function CreateLabel(gitlabLabel: Label): (p: LabelPayload)
    reads gitlabLabel
    ensures p == LabelPayloadFor(gitlabLabel.name, gitlabLabel.color, None)
    ensures p.description.None?
  {
    LabelPayload(gitlabLabel.name, if |gitlabLabel.color| >= 1 then gitlabLabel.color[1..] else "", None)
  }

  function LabelPayloads(ls: seq<Label>): (r: seq<LabelPayload>)
    reads set l | l in ls
    ensures |r| == |ls| && forall k | 0 <= k < |ls| :: r[k] == CreateLabel(ls[k])
  {
    seq(|ls|, k requires 0 <= k < |ls| reads set l | l in ls => CreateLabel(ls[k]))
  }

  /** One turn of the loop of transferLabels: lower-case in place when asked for, then build the payload. */
  method RenameLabel(current: Label, useLowerCase: bool) returns (payload: LabelPayload)
    modifies current
    ensures current.name == Migration.LabelName(old(current.name), useLowerCase)
    ensures payload == LabelPayloadFor(current.name, current.color, None)
  {
    if useLowerCase {
      current.name := ToLower(current.name);
    }
    payload := CreateLabel(current);
  }

  /** The loop of transferLabels: lower-case in place when asked for, create when absent. */
  method CreateLabels(all: seq<Label>, ghLabels: seq<string>, useLowerCase: bool)
    returns (sent: seq<LabelPayload>)
    requires forall a, b | 0 <= a < b < |all| :: all[a] != all[b]
    modifies set l | l in all
    ensures forall k | 0 <= k < |all| :: all[k].name == Migration.LabelName(old(all[k].name), useLowerCase)
    ensures sent == Filter(LabelPayloads(all), Migration.NameAbsent(ghLabels))
  {
    ghost var names := seq(|all|, m requires 0 <= m < |all| reads all => all[m].name);
    ghost var targets := seq(|all|, m requires 0 <= m < |all| => Migration.LabelName(names[m], useLowerCase));
    ghost var expected := seq(|all|, m requires 0 <= m < |all| => LabelPayloadFor(targets[m], all[m].color, None));
    sent := [];
    for k := 0 to |all|
      invariant forall m | 0 <= m < |all| :: all[m].name == (if m < k then targets[m] else names[m])
      invariant sent == Migration.LabelsToCreate(expected[..k], ghLabels, false)
    {
      var payload := RenameLabel(all[k], useLowerCase);
      assert payload == expected[k];
      Migration.LabelsToCreateStep(expected, k, ghLabels, false);
      sent := Migration.SendIfAbsent(sent, payload, ghLabels, false);
    }
    SentOfLabels(all, expected, sent, ghLabels);
  }

  lemma SentOfLabels(all: seq<Label>, expected: seq<LabelPayload>, sent: seq<LabelPayload>, ghLabels: seq<string>)
    requires |expected| == |all|
    requires forall m | 0 <= m < |all| :: expected[m] == LabelPayloadFor(all[m].name, all[m].color, None)
    requires sent == Migration.LabelsToCreate(expected[..|all|], ghLabels, false)
    ensures sent == Filter(LabelPayloads(all), Migration.NameAbsent(ghLabels))
  {
    assert expected[..|all|] == expected == LabelPayloads(all);
  }

  /** transferLabels: appends the attachment label when asked for (no merge request label), then creates. */
  method TransferLabels(labels: seq<Label>, ghLabels: seq<string>, attachmentLabel: bool, useLowerCase: bool)
    returns (all: seq<Label>, sent: seq<LabelPayload>)
    requires forall a, b | 0 <= a < b < |labels| :: labels[a] != labels[b]
    modifies set l | l in labels
    ensures |all| == |labels| + (if attachmentLabel then 1 else 0)
    ensures all[..|labels|] == labels
    ensures forall k | 0 <= k < |labels| :: labels[k].name == Migration.LabelName(old(labels[k].name), useLowerCase)
    ensures attachmentLabel ==>
      all[|labels|].name == Migration.LabelName(Migration.AttachmentLabelName, useLowerCase)
      && all[|labels|].color == Migration.AttachmentLabelColor
    ensures sent == Filter(LabelPayloads(all), Migration.NameAbsent(ghLabels))
  {
    all := labels;
    if attachmentLabel {
      var hasAttachmentLabel := new Label(Migration.AttachmentLabelName, Migration.AttachmentLabelColor, None);
      all := all + [hasAttachmentLabel];
    }
    sent := CreateLabels(all, ghLabels, useLowerCase);
  }
}
