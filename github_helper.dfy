/**
 * The GitHub helper (src/githubHelper.ts): the object that holds the target
 * repository's coordinates, its id and its milestone map, and that turns
 * GitLab text and records into what is sent to GitHub.
 */
module GithubHelper {
  import opened Wrappers
  import opened Strings
  import opened Seqs
  import opened Scanner
  import opened Config
  import opened Entities
  import opened Milestones
  import opened NoteClassifier
  import opened Conversion
  import opened TextRewrite
  import opened Utils

  /** `a + b` where `b` may be null: JavaScript writes null out as "null". */
  function ShowNullable(x: Option<string>): string {
    if x.Some? then x.value else "null"
  }

  /** The fields of an issue handed to the issue import API. */
  datatype IssueImport = IssueImport(
    title: string,
    body: string,
    assignee: Option<string>,
    createdAt: Option<string>,
    updatedAt: Option<string>,
    closed: bool,
    labels: seq<string>)

  /** What the fallback path of `createPullRequest` sends for a merge request. */
  datatype FallbackRequest =
    | ImportRequest(issue: IssueImport, comments: seq<Comment>)
    | CreateRequest(assignees: seq<string>, title: string, body: string)

  /** A milestone map built from a list, in list order; a later number overwrites an earlier one. */
  function MilestoneMapOf(ms: seq<SimpleMilestone>): MilestoneMap
    decreases |ms|
  {
    if ms == [] then [] else Set(MilestoneMapOf(ms[..|ms| - 1]), ms[|ms| - 1].number, ms[|ms| - 1])
  }

  /** The map built from the fetched milestones has distinct keys and finds each milestone under its number. */
  lemma {:induction false} MilestoneMapOfFinds(ms: seq<SimpleMilestone>)
    ensures KeysDistinct(MilestoneMapOf(ms))
    ensures forall k | 0 <= k < |ms| :: Lookup(MilestoneMapOf(ms), ms[k].number).Some?
    ensures forall n | Lookup(MilestoneMapOf(ms), n).Some? :: Lookup(MilestoneMapOf(ms), n).value in ms && Lookup(MilestoneMapOf(ms), n).value.number == n
    decreases |ms|
  {
    if ms != [] {
      var init := ms[..|ms| - 1];
      var last := ms[|ms| - 1];
      MilestoneMapOfFinds(init);
      SetSpec(MilestoneMapOf(init), last.number, last);
      forall k | 0 <= k < |ms| ensures Lookup(MilestoneMapOf(ms), ms[k].number).Some? {
        if k < |ms| - 1 {
          assert ms[k] == init[k];
        }
      }
      forall n | Lookup(MilestoneMapOf(ms), n).Some?
        ensures Lookup(MilestoneMapOf(ms), n).value in ms && Lookup(MilestoneMapOf(ms), n).value.number == n
      {
        if n != last.number {
          assert Lookup(MilestoneMapOf(init), n).value in init;
        }
      }
    }
  }

  /** With distinct numbers, each fetched milestone is found under its own number. */
  lemma {:induction false} MilestoneMapOfDistinct(ms: seq<SimpleMilestone>)
    requires forall a, b | 0 <= a < b < |ms| :: ms[a].number != ms[b].number
    ensures forall k | 0 <= k < |ms| :: Lookup(MilestoneMapOf(ms), ms[k].number) == Some(ms[k])
    decreases |ms|
  {
    if ms != [] {
      var init := ms[..|ms| - 1];
      MilestoneMapOfDistinct(init);
      SetSpec(MilestoneMapOf(init), ms[|ms| - 1].number, ms[|ms| - 1]);
      forall k | 0 <= k < |ms| - 1 ensures Lookup(MilestoneMapOf(ms), ms[k].number) == Some(ms[k]) {
        assert ms[k] == init[k];
      }
    }
  }

  class GithubHelper {
    const settings: Settings
    const env: Env
    const githubUrl: string
    const githubOwner: string
    const githubRepo: string
    /** The GitLab host and project path, and whether `getAttachment(url)` returns content. */
    const gitlabHost: string
    const gitlabProjectPath: string
    const attachmentAvailable: string -> bool
    const delayInMs: nat
    const useIssuesForAllMergeRequests: bool
    var repoId: Option<int>
    var milestoneMap: Option<MilestoneMap>

    constructor(settings: Settings, env: Env, gitlabHost: string, gitlabProjectPath: string,
                attachmentAvailable: string -> bool, useIssuesForAllMergeRequests: bool)
      ensures this.settings == settings && this.env == env
      ensures githubUrl == (if settings.github.baseUrl != "" then settings.github.baseUrl else GitHubLocation)
      ensures githubOwner == settings.github.owner && githubRepo == settings.github.repo
      ensures this.gitlabHost == gitlabHost && this.gitlabProjectPath == gitlabProjectPath
      ensures this.attachmentAvailable == attachmentAvailable
      ensures delayInMs == 2000 && this.useIssuesForAllMergeRequests == useIssuesForAllMergeRequests
      ensures repoId.None? && milestoneMap.None?
    {
      this.settings := settings;
      this.env := env;
      githubUrl := if settings.github.baseUrl != "" then settings.github.baseUrl else GitHubLocation;
      githubOwner := settings.github.owner;
      githubRepo := settings.github.repo;
      this.gitlabHost := gitlabHost;
      this.gitlabProjectPath := gitlabProjectPath;
      this.attachmentAvailable := attachmentAvailable;
      delayInMs := 2000;
      this.useIssuesForAllMergeRequests := useIssuesForAllMergeRequests;
      repoId := None;
      milestoneMap := None;
    }

    function RepoLink(): string {
      githubUrl + "/" + githubOwner + "/" + githubRepo
    }

    /** The attachment context once the repository id is `id`. */
    function AttachmentsFor(id: Option<int>): AttachmentContext {
      AttachmentContext(id, gitlabHost, gitlabProjectPath, attachmentAvailable, settings.s3, settings.azure, env.sha256Hex)
    }

    // -------------------------------------------------------------------------
    // convertIssuesAndComments

    /**
     * The rewrite passes, in the order the helper applies them, with the
     * cross-project and attachment passes corrected. Without a migration
     * line, text with no mention, reference or link comes out as it went in;
     * without a projectmap and with every attachment movable, the result is
     * what the code as written produces.
     */
    function ConvertIssuesAndComments(str: string, item: Option<Origin>, addLine: bool): (r: string)
      reads this
      ensures !addLine && '@' !in str && '#' !in str && '%' !in str && ']' !in str ==> r == str
      ensures |settings.projectmap| == 0 && (forall url :: !NotMoved(url, AttachmentsFor(repoId))) ==>
        r == ConvertWithAsWritten(milestoneMap, repoId, str, item, addLine)
    {
      ConvertWithFacts(milestoneMap, repoId, str, item, addLine);
      ConvertWith(milestoneMap, repoId, str, item, addLine)
    }

    lemma ConvertWithFacts(mm: Option<MilestoneMap>, id: Option<int>, str: string, item: Option<Origin>, addLine: bool)
      ensures !addLine && '@' !in str && '#' !in str && '%' !in str && ']' !in str ==> ConvertWith(mm, id, str, item, addLine) == str
      ensures |settings.projectmap| == 0 && (forall url :: !NotMoved(url, AttachmentsFor(id))) ==>
        ConvertWith(mm, id, str, item, addLine) == ConvertWithAsWritten(mm, id, str, item, addLine)
    {
      if !addLine && '@' !in str && '#' !in str && '%' !in str && ']' !in str {
        PlainTextUnchanged(mm, id, str, item);
      }
      if |settings.projectmap| == 0 && (forall url :: !NotMoved(url, AttachmentsFor(id))) {
        AsWrittenAgreesWithCorrected(mm, id, str, item, addLine);
      }
    }

    /**
     * The passes with the milestone map and repository id passed in rather
     * than read. The cross-project reference pass and the attachment pass are
     * the corrected ones: one '#' before the number, and a link that could not
     * be moved keeps its text.
     */
    function ConvertWith(mm: Option<MilestoneMap>, id: Option<int>, str: string, item: Option<Origin>, addLine: bool): string {
      var s0 := if addLine then AddMigrationLine(str, item, RepoLink(), env) else str;
      var s1 := if |settings.usermap| > 0 then ReplaceAll(UserMentions(settings.usermap), s0) else s0;
      var s2 := if |settings.inactiveUserSettings.inactiveUserMap| > 0
                then ReplaceAll(InactiveMentions(settings.inactiveUserSettings), s1) else s1;
      var s3 := if |settings.projectmap| > 0 then ReplaceAll(ProjectIssueRefsIntended(settings.projectmap), s2) else s2;
      var s4 := ReplaceAll(IssueRefs(), s3);
      var s5 := if |settings.projectmap| > 0 then ReplaceAll(ProjectMilestoneTitlesIntended(settings.projectmap), s4) else s4;
      var s6 := if |settings.projectmap| > 0
                then ReplaceAll(ProjectMilestoneNumbersIntended(settings.projectmap, githubUrl, githubOwner), s5) else s5;
      var s7 := ReplaceAll(MilestoneTitleRefs(mm, RepoLink()), s6);
      var s8 := ReplaceAll(MilestoneNumberRefs(mm, RepoLink()), s7);
      MigratedAttachmentsKeepingFailures(s8, AttachmentsFor(id))
    }

    /**
     * The passes exactly as the code runs them: the cross-project passes
     * read only the first key's groups and write `##` before an issue
     * number, and a link whose attachment was not moved becomes "undefined".
     */
    function ConvertWithAsWritten(mm: Option<MilestoneMap>, id: Option<int>, str: string, item: Option<Origin>, addLine: bool): string {
      var s0 := if addLine then AddMigrationLine(str, item, RepoLink(), env) else str;
      var s1 := if |settings.usermap| > 0 then ReplaceAll(UserMentions(settings.usermap), s0) else s0;
      var s2 := if |settings.inactiveUserSettings.inactiveUserMap| > 0
                then ReplaceAll(InactiveMentions(settings.inactiveUserSettings), s1) else s1;
      var s3 := if |settings.projectmap| > 0 then ReplaceAll(ProjectIssueRefs(settings.projectmap), s2) else s2;
      var s4 := ReplaceAll(IssueRefs(), s3);
      var s5 := if |settings.projectmap| > 0 then ReplaceAll(ProjectMilestoneTitles(settings.projectmap), s4) else s4;
      var s6 := if |settings.projectmap| > 0
                then ReplaceAll(ProjectMilestoneNumbers(settings.projectmap, githubUrl, githubOwner), s5) else s5;
      var s7 := ReplaceAll(MilestoneTitleRefs(mm, RepoLink()), s6);
      var s8 := ReplaceAll(MilestoneNumberRefs(mm, RepoLink()), s7);
      MigratedAttachments(s8, AttachmentsFor(id))
    }

    /**
     * Without a projectmap, and with every attachment movable (downloads
     * succeed and Azure, when used, has credentials), the code's passes and
     * the corrected ones give the same text.
     */
    lemma AsWrittenAgreesWithCorrected(mm: Option<MilestoneMap>, id: Option<int>, str: string, item: Option<Origin>, addLine: bool)
      requires |settings.projectmap| == 0
      requires forall url :: !NotMoved(url, AttachmentsFor(id))
      ensures ConvertWithAsWritten(mm, id, str, item, addLine) == ConvertWith(mm, id, str, item, addLine)
    {
      var s0 := if addLine then AddMigrationLine(str, item, RepoLink(), env) else str;
      var s1 := if |settings.usermap| > 0 then ReplaceAll(UserMentions(settings.usermap), s0) else s0;
      var s2 := if |settings.inactiveUserSettings.inactiveUserMap| > 0
                then ReplaceAll(InactiveMentions(settings.inactiveUserSettings), s1) else s1;
      var s4 := ReplaceAll(IssueRefs(), s2);
      var s7 := ReplaceAll(MilestoneTitleRefs(mm, RepoLink()), s4);
      var s8 := ReplaceAll(MilestoneNumberRefs(mm, RepoLink()), s7);
      MovedLinksAgree(s8, AttachmentsFor(id));
    }

    /**
     * Text without mentions, references or links (no `@`, `#`, `%` or `]`)
     * passes through every rewrite unchanged when no migration line is added.
     */
    lemma PlainTextUnchanged(mm: Option<MilestoneMap>, id: Option<int>, str: string, item: Option<Origin>)
      requires '@' !in str && '#' !in str && '%' !in str && ']' !in str
      ensures ConvertWith(mm, id, str, item, false) == str
    {
      MentionPassesUnchanged(settings, str);
      IntendedProjectPassesUnchanged(settings.projectmap, githubUrl, githubOwner, str);
      NoFireWithout(IssueRefs(), str, '#');
      NoFireWithout(MilestoneTitleRefs(mm, RepoLink()), str, '%');
      NoFireWithout(MilestoneNumberRefs(mm, RepoLink()), str, '%');
      if Contains(str, "](/uploads") {
        CharsOfContained(str, "](/uploads", ']');
      }
      NoUploadLinksUnchanged(str, AttachmentsFor(id));
    }

    // -------------------------------------------------------------------------
    // Milestones

    /**
     * convertMilestone: the number of the first milestone in the map with the
     * item's milestone title; an error when the map has not been built.
     */
    function ConvertMilestone(item: Item): (r: Result<Option<int>>)
      reads this
      ensures r.Err? <==> milestoneMap.None?
      ensures r.Ok? && item.milestoneTitle.None? ==> r.value.None?
      ensures r.Ok? && r.value.Some? ==>
        item.milestoneTitle.Some?
        && exists i | 0 <= i < |milestoneMap.value| ::
             milestoneMap.value[i].1.title == item.milestoneTitle.value && milestoneMap.value[i].1.number == r.value.value
             && forall k | 0 <= k < i :: milestoneMap.value[k].1.title != item.milestoneTitle.value
      ensures r.Ok? && item.milestoneTitle.Some? && r.value.None? ==>
        forall i | 0 <= i < |milestoneMap.value| :: milestoneMap.value[i].1.title != item.milestoneTitle.value
    {
      if milestoneMap.None? then Err("this.milestoneMap not initialised")
      else if item.milestoneTitle.None? then Ok(None)
      else
        match FirstWithTitle(milestoneMap.value, item.milestoneTitle.value)
        case Some(m) => Ok(Some(m.number))
        case None => Ok(None)
    }

    /**
     * registerMilestoneMap: takes a given map, or else builds one from the
     * milestones fetched from GitHub when none is registered yet.
     */
    method RegisterMilestoneMap(given: Option<MilestoneMap>, fetched: seq<SimpleMilestone>)
      modifies this
      ensures given.Some? ==> milestoneMap == given
      ensures given.None? && old(milestoneMap).Some? ==> milestoneMap == old(milestoneMap)
      ensures given.None? && old(milestoneMap).None? ==> milestoneMap == Some(MilestoneMapOf(fetched))
      ensures repoId == old(repoId)
    {
      if given.Some? {
        milestoneMap := given;
      } else if milestoneMap.None? {
        var m: MilestoneMap := [];
        for k := 0 to |fetched|
          invariant m == MilestoneMapOf(fetched[..k])
        {
          assert fetched[..k + 1][..k] == fetched[..k];
          m := Set(m, fetched[k].number, fetched[k]);
        }
        assert fetched[..|fetched|] == fetched;
        milestoneMap := Some(m);
      }
    }

    /** createMilestone as a function of the milestone, with the helper's state as it is now. */
    function MilestoneCreator(): Milestone -> MilestonePayload
      reads this
    {
      var mm, id := milestoneMap, repoId;
      (m: Milestone) => MilestonePayloadFor(m, ConvertWith(mm, id, m.description, None, false))
    }

    /** createMilestone: the payload, with the description converted without a migration line. */
    function CreateMilestone(m: Milestone): (p: MilestonePayload)
      reads this
      ensures p.title == m.title
      ensures p.description == ConvertIssuesAndComments(m.description, None, false)
      ensures p.state == "open" <==> m.state == "active"
      ensures p.dueOn.Some? <==> m.dueDate.Some? && m.dueDate.value != ""
      ensures p.dueOn.Some? ==> p.dueOn.value == m.dueDate.value + "T00:00:00Z"
    {
      MilestonePayloadFor(m, ConvertIssuesAndComments(m.description, None, false))
    }

    // -------------------------------------------------------------------------
    // Notes

    predicate Skipped(n: Note) {
      CheckIfNoteCanBeSkipped(settings.skipMatchingComments, env.regexTest, n.body)
    }

    function KeptNote(): Note -> bool {
      (n: Note) => !Skipped(n)
    }

    /** The notes that become comments: sorted by id, skipped ones dropped. */
    function KeptNotes(ns: seq<Note>): seq<Note> {
      Filter(SortBy(ns, NoteId), KeptNote())
    }

    /** The comment a kept note becomes; the migration line is added unless the token owner wrote a non-empty note. */
    function NoteComment(n: Note): (c: Comment)
      reads this
      ensures c.createdAt == n.createdAt
      ensures UserIsCreator(settings, Some(n.author)) && n.body != "" ==>
        c.body == ConvertIssuesAndComments(n.body, Some(n.AsOrigin()), false)
      ensures !UserIsCreator(settings, Some(n.author)) || n.body == "" ==>
        c.body == ConvertIssuesAndComments(n.body, Some(n.AsOrigin()), true)
    {
      Comment(n.createdAt, ConvertIssuesAndComments(n.body, Some(n.AsOrigin()), !UserIsCreator(settings, Some(n.author)) || n.body == ""))
    }

    /** The comment of each note, as a function value with the helper's state as it is now. */
    function NoteCommenter(): Note -> Comment
      reads this
    {
      var mm, id := milestoneMap, repoId;
      (n: Note) => Comment(n.createdAt, ConvertWith(mm, id, n.body, Some(n.AsOrigin()), !UserIsCreator(settings, Some(n.author)) || n.body == ""))
    }

    /** The comments for a list of notes taken in order. */
    function CommentsFor(ns: seq<Note>): seq<Comment>
      reads this
    {
      FilterMap(ns, KeptNote(), NoteCommenter())
    }

    /** processNotesIntoComments, as a value. */
    function NotesToComments(notes: Option<seq<Note>>): seq<Comment>
      reads this
    {
      if notes.None? || notes.value == [] then [] else CommentsFor(SortBy(notes.value, NoteId))
    }

    /** The comments are exactly the kept notes, one each, in order. */
    lemma CommentsAreKeptNotes(ns: seq<Note>)
      ensures |CommentsFor(ns)| == |Filter(ns, KeptNote())|
      ensures forall k | 0 <= k < |CommentsFor(ns)| :: CommentsFor(ns)[k] == NoteComment(Filter(ns, KeptNote())[k])
    {
      FilterMapIsMapOfFilter(ns, KeptNote(), NoteCommenter());
      MapAt(Filter(ns, KeptNote()), NoteCommenter());
    }

    /**
     * The comments of non-empty notes: the notes sorted by id with the
     * skipped ones dropped, each keeping its creation date.
     */
    lemma ProcessedNotes(ns: seq<Note>)
      requires ns != []
      ensures SortedBy(KeptNotes(ns), NoteId)
      ensures forall n | n in KeptNotes(ns) :: n in ns && !Skipped(n)
      ensures forall n | n in ns && !Skipped(n) :: n in KeptNotes(ns)
      ensures |NotesToComments(Some(ns))| == |KeptNotes(ns)|
      ensures forall k | 0 <= k < |KeptNotes(ns)| :: NotesToComments(Some(ns))[k] == NoteComment(KeptNotes(ns)[k])
    {
      var sorted := SortBy(ns, NoteId);
      FilterKeepsSorted(sorted, KeptNote(), NoteId);
      FilterSpec(sorted, KeptNote());
      CommentsAreKeptNotes(sorted);
      forall n | n in sorted ensures n in ns {
        assert n in multiset(sorted);
      }
      forall n | n in ns ensures n in sorted {
        assert n in multiset(ns);
      }
    }

    /** processNotesIntoComments */
    method ProcessNotesIntoComments(notes: Option<seq<Note>>) returns (comments: seq<Comment>)
      ensures comments == NotesToComments(notes)
      ensures notes.None? || notes.value == [] ==> comments == []
    {
      if notes.None? || |notes.value| == 0 {
        return [];
      }
      var sorted := SortBy(notes.value, NoteId);
      comments := CommentsOfSorted(sorted);
    }

    /** The loop of processNotesIntoComments over the notes sorted by id. */
    method CommentsOfSorted(sorted: seq<Note>) returns (comments: seq<Comment>)
      ensures comments == CommentsFor(sorted)
    {
      comments := [];
      var nrOfMigratedNotes := 0;
      for k := 0 to |sorted|
        invariant comments == CommentsFor(sorted[..k])
        invariant nrOfMigratedNotes == |comments|
      {
        CommentsForStep(sorted, k);
        var note := sorted[k];
        if Skipped(note) {
          continue;
        }
        comments := comments + [NoteComment(note)];
        nrOfMigratedNotes := nrOfMigratedNotes + 1;
      }
      assert sorted[..|sorted|] == sorted;
    }

    /** One more note adds its comment unless it is skipped. */
    lemma CommentsForStep(ns: seq<Note>, k: nat)
      requires k < |ns|
      ensures CommentsFor(ns[..k + 1]) == CommentsFor(ns[..k]) + (if Skipped(ns[k]) then [] else [NoteComment(ns[k])])
    {
      assert ns[..k + 1] == ns[..k] + [ns[k]];
      FilterMapAppend(ns[..k], ns[k], KeptNote(), NoteCommenter());
    }

    // -------------------------------------------------------------------------
    // Pull requests

    /**
     * updatePullRequestState: a merged request becomes closed (unless the pull
     * request is already closed or it is a dry run), then the update is sent
     * only for a closed request whose pull request is open.
     */
    method UpdatePullRequestState(pullRequest: GithubIssue, mergeRequest: MergeRequest) returns (update: Option<StateUpdate>)
      modifies mergeRequest
      ensures mergeRequest.state == MergeRequestStateAfterSync(old(mergeRequest.state), pullRequest, settings.dryRun)
      ensures mergeRequest.labels == old(mergeRequest.labels)
      ensures update == IssueStateUpdate(pullRequest, mergeRequest.state, settings.dryRun)
    {
      if mergeRequest.state == "merged" && pullRequest.state != "closed" && !settings.dryRun {
        mergeRequest.state := "closed";
      }
      if mergeRequest.state != "closed" || pullRequest.state == "closed" {
        return None;
      }
      if settings.dryRun {
        return None;
      }
      return Some(StateUpdate(pullRequest.number, mergeRequest.state));
    }

    /** The title of the issue that stands in for a merge request. */
    function FallbackTitle(title: string, state: string): (r: string)
      ensures r == Trim(title) + " - [" + state + "]"
    {
      Trim(title) + " - [" + state + "]"
    }

    /** The text placed before the description of a stand-in issue. */
    function MergeLine(mr: MergeRequest): string {
      "_Merges " + mr.sourceBranch + " -> " + mr.targetBranch + "_\n\n"
    }

    /**
     * The converted body of a stand-in issue: the migration line is left out
     * only when the import API is used and the token owner wrote the request.
     */
    function FallbackBody(mr: MergeRequest): string
      reads this
    {
      ConvertIssuesAndComments(MergeLine(mr) + ShowNullable(mr.description), Some(mr.AsOrigin()),
                               !UserIsCreator(settings, mr.author) || !settings.useIssueImportAPI)
    }

    /**
     * The fallback of createPullRequest: an issue describing the merge
     * request, through the import API (with its comments) or the plain
     * create call (which also tags the merge request's own labels).
     */
    method CreateFallbackIssue(mergeRequest: MergeRequest, notes: Option<seq<Note>>) returns (r: FallbackRequest)
      modifies mergeRequest
      ensures mergeRequest.state == old(mergeRequest.state)
      ensures settings.useIssueImportAPI <==> r.ImportRequest?
      ensures r.ImportRequest? ==>
        && r.issue.title == FallbackTitle(mergeRequest.title, mergeRequest.state)
        && r.issue.body == old(FallbackBody(mergeRequest))
        && (r.issue.assignee.Some? <==> |MappedAssignees(settings, ItemAssignees(mergeRequest))| > 0)
        && (r.issue.assignee.Some? ==> r.issue.assignee.value == MappedAssignees(settings, ItemAssignees(mergeRequest))[0])
        && r.issue.createdAt == mergeRequest.createdAt && r.issue.updatedAt == mergeRequest.updatedAt
        && (r.issue.closed <==> mergeRequest.state == "merged" || mergeRequest.state == "closed")
        && r.issue.labels == ["gitlab merge request"]
        && r.comments == (if mergeRequest.iid == 0 then [] else old(NotesToComments(notes)))
        && mergeRequest.labels == old(mergeRequest.labels)
      ensures r.CreateRequest? ==>
        && r.title == FallbackTitle(mergeRequest.title, mergeRequest.state)
        && r.body == old(FallbackBody(mergeRequest))
        && r.assignees == MappedAssignees(settings, ItemAssignees(mergeRequest))
        && mergeRequest.labels == Some((if old(mergeRequest.labels).Some? then old(mergeRequest.labels).value else []) + ["gitlab merge request"])
    {
      if settings.useIssueImportAPI {
        r := ImportFallbackIssue(mergeRequest, notes);
      } else {
        r := CreateFallbackRequest(mergeRequest);
      }
    }

    /** The plain-create half of the fallback: also tags the merge request with the fallback label. */
    method CreateFallbackRequest(mergeRequest: MergeRequest) returns (r: FallbackRequest)
      modifies mergeRequest
      ensures r.CreateRequest?
      ensures r.title == FallbackTitle(mergeRequest.title, mergeRequest.state)
      ensures r.body == old(FallbackBody(mergeRequest))
      ensures r.assignees == MappedAssignees(settings, ItemAssignees(mergeRequest))
      ensures mergeRequest.state == old(mergeRequest.state)
      ensures mergeRequest.labels == Some((if old(mergeRequest.labels).Some? then old(mergeRequest.labels).value else []) + ["gitlab merge request"])
    {
      var bodyConverted := FallbackBody(mergeRequest);
      var assignees := ConvertAssignees(settings, mergeRequest.AsItem());
      var title := FallbackTitle(mergeRequest.title, mergeRequest.state);
      r := CreateRequest(assignees, title, bodyConverted);
      TagAsMergeRequest(mergeRequest);
    }

    /** Adds the fallback label to the merge request's own labels, creating the list when it is missing. */
    static method TagAsMergeRequest(mergeRequest: MergeRequest)
      modifies mergeRequest
      ensures mergeRequest.state == old(mergeRequest.state)
      ensures mergeRequest.labels == Some((if old(mergeRequest.labels).Some? then old(mergeRequest.labels).value else []) + ["gitlab merge request"])
    {
      var labels := if mergeRequest.labels.Some? then mergeRequest.labels.value else [];
      mergeRequest.labels := Some(labels + ["gitlab merge request"]);
    }

    /** The import-API half of the fallback: the issue and, for a real merge request, its comments. */
    method ImportFallbackIssue(mergeRequest: MergeRequest, notes: Option<seq<Note>>) returns (r: FallbackRequest)
      ensures r.ImportRequest?
      ensures r.issue.title == FallbackTitle(mergeRequest.title, mergeRequest.state)
      ensures r.issue.body == old(FallbackBody(mergeRequest))
      ensures r.issue.assignee.Some? <==> |MappedAssignees(settings, ItemAssignees(mergeRequest))| > 0
      ensures r.issue.assignee.Some? ==> r.issue.assignee.value == MappedAssignees(settings, ItemAssignees(mergeRequest))[0]
      ensures r.issue.createdAt == mergeRequest.createdAt && r.issue.updatedAt == mergeRequest.updatedAt
      ensures r.issue.closed <==> mergeRequest.state == "merged" || mergeRequest.state == "closed"
      ensures r.issue.labels == ["gitlab merge request"]
      ensures r.comments == (if mergeRequest.iid == 0 then [] else old(NotesToComments(notes)))
    {
      var bodyConverted := FallbackBody(mergeRequest);
      var assignees := ConvertAssignees(settings, mergeRequest.AsItem());
      var title := FallbackTitle(mergeRequest.title, mergeRequest.state);
      var props := IssueImport(
        title, bodyConverted,
        if |assignees| > 0 then Some(assignees[0]) else None,
        mergeRequest.createdAt, mergeRequest.updatedAt,
        mergeRequest.state == "merged" || mergeRequest.state == "closed",
        ["gitlab merge request"]);
      var comments: seq<Comment> := [];
      if mergeRequest.iid != 0 {
        comments := ProcessNotesIntoComments(notes);
      }
      return ImportRequest(props, comments);
    }
  }

  function NoteId(n: Note): int {
    n.id
  }

  /** The assignees of a merge request, none when the field is missing. */
  function ItemAssignees(mr: MergeRequest): seq<User> {
    if mr.assignees.Some? then mr.assignees.value else []
  }

  /** A matcher that only matches at the character `c` changes nothing in text without `c`. */
  lemma NoFireWithout(m: Matcher, s: string, c: char)
    requires c !in s
    requires forall k | 0 <= k < |s| :: m(s, k).Some? ==> s[k] == c
    ensures ReplaceAll(m, s) == s
  {
    NoMatchUnchanged(m, s);
  }

  lemma MentionPassesUnchanged(settings: Settings, str: string)
    requires '@' !in str
    ensures ReplaceAll(UserMentions(settings.usermap), str) == str
    ensures ReplaceAll(InactiveMentions(settings.inactiveUserSettings), str) == str
  {
    NoFireWithout(UserMentions(settings.usermap), str, '@');
    NoFireWithout(InactiveMentions(settings.inactiveUserSettings), str, '@');
  }

  /** Text without `#` and `%` passes the cross-project passes as written unchanged. */
  lemma ProjectPassesUnchanged(projectmap: StrMap, githubUrl: string, owner: string, str: string)
    requires '#' !in str && '%' !in str
    ensures ReplaceAll(ProjectIssueRefs(projectmap), str) == str
    ensures ReplaceAll(ProjectMilestoneTitles(projectmap), str) == str
    ensures ReplaceAll(ProjectMilestoneNumbers(projectmap, githubUrl, owner), str) == str
  {
    forall k | 0 <= k < |str| ensures !Fires(ProjectIssueRefs(projectmap), str, k) {
      if ProjectIssueRefAt(projectmap, str, k).Some? {
        ProjectIssueRefAtSpec(projectmap, str, k);
        var key :| key in Keys(projectmap) && KeyRefAt(str, k, key, '#');
        SeparatorOfKeyRef(str, k, key, '#');
      }
    }
    NoMatchUnchanged(ProjectIssueRefs(projectmap), str);
    forall k | 0 <= k < |str| ensures !Fires(ProjectMilestoneTitles(projectmap), str, k) {
      if ProjectMilestoneTitleAt(projectmap, str, k).Some? {
        var key :| key in Keys(projectmap) && KeyTitleRefAt(str, k, key);
        SeparatorOfKeyRef(str, k, key, '%');
      }
    }
    NoMatchUnchanged(ProjectMilestoneTitles(projectmap), str);
    forall k | 0 <= k < |str| ensures !Fires(ProjectMilestoneNumbers(projectmap, githubUrl, owner), str, k) {
      if ProjectMilestoneNumberAt(projectmap, githubUrl, owner, str, k).Some? {
        var key :| key in Keys(projectmap) && KeyRefAt(str, k, key, '%');
        SeparatorOfKeyRef(str, k, key, '%');
      }
    }
    NoMatchUnchanged(ProjectMilestoneNumbers(projectmap, githubUrl, owner), str);
  }

  /** Text without `#` and `%` passes the corrected cross-project passes unchanged. */
  lemma IntendedProjectPassesUnchanged(projectmap: StrMap, githubUrl: string, owner: string, str: string)
    requires '#' !in str && '%' !in str
    ensures ReplaceAll(ProjectIssueRefsIntended(projectmap), str) == str
    ensures ReplaceAll(ProjectMilestoneTitlesIntended(projectmap), str) == str
    ensures ReplaceAll(ProjectMilestoneNumbersIntended(projectmap, githubUrl, owner), str) == str
  {
    forall k | 0 <= k < |str| ensures !Fires(ProjectIssueRefsIntended(projectmap), str, k) {
      if ProjectIssueRefAtIntended(projectmap, str, k).Some? {
        var key :| key in Keys(projectmap) && KeyRefAt(str, k, key, '#');
        SeparatorOfKeyRef(str, k, key, '#');
      }
    }
    NoMatchUnchanged(ProjectIssueRefsIntended(projectmap), str);
    forall k | 0 <= k < |str| ensures !Fires(ProjectMilestoneTitlesIntended(projectmap), str, k) {
      if ProjectMilestoneTitleAtIntended(projectmap, str, k).Some? {
        var key :| key in Keys(projectmap) && KeyTitleRefAt(str, k, key);
        SeparatorOfKeyRef(str, k, key, '%');
      }
    }
    NoMatchUnchanged(ProjectMilestoneTitlesIntended(projectmap), str);
    forall k | 0 <= k < |str| ensures !Fires(ProjectMilestoneNumbersIntended(projectmap, githubUrl, owner), str, k) {
      if ProjectMilestoneNumberAtIntended(projectmap, githubUrl, owner, str, k).Some? {
        var key :| key in Keys(projectmap) && KeyRefAt(str, k, key, '%');
        SeparatorOfKeyRef(str, k, key, '%');
      }
    }
    NoMatchUnchanged(ProjectMilestoneNumbersIntended(projectmap, githubUrl, owner), str);
  }

  /** A `key` + separator reference contains the separator. */
  lemma SeparatorOfKeyRef(s: string, i: nat, key: string, sep: char)
    requires OccursAt(s, key + [sep], i) || (sep == '%' && OccursAt(s, key + "%\"", i))
    ensures sep in s
  {
    if OccursAt(s, key + [sep], i) {
      OccursAtChars(s, key + [sep], i);
      assert s[i + |key|] == (key + [sep])[|key|];
    } else {
      OccursAtChars(s, key + "%\"", i);
      assert s[i + |key|] == (key + "%\"")[|key|];
    }
  }
}
