# node-gitlab-2-github in Dafny

A model of the decision and rewriting logic of node-gitlab-2-github, the tool
that copies a GitLab project's milestones, labels, issues, merge requests and
their notes into a GitHub repository. The model covers two versions of the
engine and proves properties of each:

- The current TypeScript engine:
  - `src/index.ts`: the transfer passes.
  - `src/githubHelper.ts`: the GitHub helper that converts GitLab records and
    text into GitHub payloads.
  - `src/utils.ts`: attachment-link relocation and the user list.
- The legacy JavaScript engine: `index.js` and `utils.js`.

Network calls are not modelled. What they return is an input to the model:

- the fetched GitLab items and the GitHub inventories;
- whether an issue creation succeeds;
- whether an attachment download returns content.

The runtime functions the code calls are fields of `Config.Env`:

- date parsing and formatting;
- the md5 and sha256 digests;
- user-supplied skip patterns.

Modules, one per file:

| file | module | what it holds |
|---|---|---|
| `wrappers.dfy` | `Wrappers` | `Option` and `Result` |
| `strings.dfy` | `Strings` | JavaScript string operations: `includes`, `startsWith`, ASCII `toLowerCase`, `trim`, `join`, number rendering |
| `seqs.dfy` | `Seqs` | `filter`, stable sort by key, counting and subsequences |
| `scanner.dfy` | `Scanner` | a global `String.prototype.replace`: a left-to-right scan that tries a matcher at each offset, emits its replacement and jumps past the match, or copies one character |
| `config.dfy` | `Config` | the settings object as a value passed in, and string dictionaries as ordered key/value lists (`Object.keys` order) |
| `entities.dfy` | `Entities`, `Milestones` | GitLab and GitHub records; merge requests and labels as classes, because the code updates `state`, `labels` and `name` in place; the helper's milestone `Map` |
| `note_classifier.dfy` | `NoteClassifier` | `checkIfNoteCanBeSkipped` and the legacy note filter |
| `conversion.dfy` | `Conversion` | assignee, label, state-update, milestone and label conversions |
| `text_rewrite.dfy` | `TextRewrite` | the passes of `convertIssuesAndComments`, `addMigrationLine`, `createLineRef` |
| `utils.dfy` | `Utils` | `migrateAttachments` and `organizationUsersString` |
| `github_helper.dfy` | `GithubHelper` | the helper class: milestone map, rewrite pipeline, notes, pull-request state, merge-request fallback |
| `migration.dfy` | `Migration` | `transferIssues` (gap fill, counters), `transferMergeRequests`, `transferMilestones`, `transferLabels` |
| `legacy_index.dfy` | `LegacyTemplates`, `LegacyIndex` | the legacy transfer and conversion functions |
| `legacy_utils.dfy` | `LegacyUtils` | the legacy pattern builder `generateUserProjectRegex` |

Each regular expression the code uses is written out as a matcher: a
function that says whether the expression matches at a given offset, how
long the match is and what replaces it.

- An alternation `k1|k2|…` built from dictionary keys tries the keys in
  `Object.keys` order.
- A lookbehind `(?<=\W)` inspects the character before the offset.
- `.*` stops at line terminators.

Some behaviours of the code worth knowing when reading the model:

- **Failed attachment downloads.** A link whose attachment cannot be moved
  is replaced by the word `undefined` (see Findings).
- **Repeated text rewrites.** The rewrite is not idempotent: a mention
  `@alice` mapped to `alice-gh` is rewritten again on a second run, because
  the keys are matched without a word boundary. The model makes no
  idempotence claim.
- **Duplicate detection.** Existing issues and pull requests are matched on
  their titles only; nothing else in the destination body is consulted.
- **Pacing.** The helper only waits a fixed `delayInMs` of 2000 ms between
  calls, recorded by its constructor; there is no retry on throttling.
- **Issue inventory.** The GitHub issues used for duplicate detection come
  from `getAllGithubIssues`, which keeps only issues labelled
  `gitlab merge request` (src/githubHelper.ts:162). The model takes the
  fetched inventory as given, so the "already exists" checks hold for
  whatever that fetch returns.
- **Corrected rewrite pipeline.** The helper's `convertIssuesAndComments`
  is modelled by `GithubHelper.GithubHelper.ConvertIssuesAndComments` with
  the corrected cross-project and attachment passes (Findings rows 1 to 5). The passes exactly as written are `ConvertWithAsWritten`, and
  `AsWrittenAgreesWithCorrected` proves the two agree when no projectmap is
  configured and every attachment can be moved.

## Model

Predicates and functions that carry no contract of their own are described
through the rows of the lemmas about them:
`NoteClassifier.IsEventNote` and `NoteClassifier.CheckIfNoteCanBeSkipped`
(src/githubHelper.ts:638-660) through the NoteClassifier rows,
`Conversion.KeptLabels` through the ConvertLabels, ClosedItemsDropWorkflowLabels
and OpenItemsKeepLabels rows, and `Conversion.UserIsCreator`
(src/githubHelper.ts:307-315) through UserIsCreatorUnmapped and
MappedToOwnerIsCreator.

| member | source | states |
|---|---|---|
| NoteClassifier.PlainNoteIsMigrated | src/githubHelper.ts:638-660 | a note that starts none of the anchored event patterns, contains no "status changed to " in any letter case and matches no user skip pattern is not skipped |
| NoteClassifier.FirstLetterNoteIsMigrated | src/githubHelper.ts:638-660 | a note whose lower-cased first letter is not a, c, m or r, that contains no "status changed to " in any letter case and matches no user skip pattern, is not skipped |
| NoteClassifier.ClosedByCommitIsMigrated | src/githubHelper.ts:639-641 | a note starting "Status changed to closed by commit", in any letter case, is kept unless a user skip pattern matches it |
| NoteClassifier.ReassignmentIsSkipped | src/githubHelper.ts:644 | any number of leading "re" before "assigned to ", in any letter case, makes the note an event note, which is skipped |
| NoteClassifier.StripRe | src/githubHelper.ts:644 | the text after its longest leading run of "re": a suffix that does not start with "re", the part removed being "re" repeated |
| NoteClassifier.LowerCaseStatusNoteDiffers | index.js:444 | "status changed to reopened" is skipped by the current filter, which ignores letter case, and kept by the legacy filter, which does not |
| NoteClassifier.UnanchoredMentionDiffers | index.js:450 | "see mentioned in issue #4" is skipped by the legacy filter, whose patterns are unanchored, and kept by the current one |
| NoteClassifier.LegacyClosedByCommitIsMigrated | index.js:444-450 | the legacy filter keeps "Status changed to closed by commit": the status pattern excludes it and no other legacy pattern occurs in it |
| Conversion.UserIsCreatorUnmapped | src/githubHelper.ts:307-315 | with no usermap entry for the author, the author is the creator if and only if it is present and its username is the token owner |
| Conversion.MappedToOwnerIsCreator | src/githubHelper.ts:307-315 | an author the usermap maps to the token owner is the creator |
| Conversion.MappedAssigneesAreKnownLogins | src/githubHelper.ts:364-376 | every assignee sent is the configured GitHub user or a non-empty usermap value |
| Conversion.MappedAssigneesKeepsKnownUsers | src/githubHelper.ts:364-376 | when every assignee has a GitHub login, all of them are kept, one each, in input order |
| Conversion.ConvertAssignees | src/githubHelper.ts:364-376 | no assignees gives `[]`; otherwise the loop returns the GitHub logins of the assignees in order, dropping unmapped ones |
| Conversion.ConvertLabels | src/githubHelper.ts:399-425 | the result is the kept labels (lower-cased when configured) followed by "has attachment" exactly when the description contains `/uploads/` and S3 is not configured |
| Conversion.ClosedItemsDropWorkflowLabels | src/githubHelper.ts:401-408 | a closed item carries no "doing" or "to do" label in any letter case |
| Conversion.OpenItemsKeepLabels | src/githubHelper.ts:401-411 | an item that is not closed keeps all its labels in order, lower-cased when configured |
| Conversion.IssueStateUpdate | src/githubHelper.ts:701-717 | an update is sent if and only if the GitLab state is closed, the GitHub issue is not closed and it is not a dry run; it closes that issue number |
| Conversion.PullRequestSyncCloses | src/githubHelper.ts:1051-1084 | a merged or closed merge request whose pull request is open produces a closing update, except in a dry run |
| Conversion.MilestonePayloadFor | src/githubHelper.ts:734-745 | the title is kept; the state is open if and only if the milestone is active, closed otherwise; `due_on` is set only for a non-empty due date, as that date followed by "T00:00:00Z" |
| Conversion.LabelPayloadFor | src/githubHelper.ts:763-771 | the name and description are kept; the colour loses its first character |
| Config.Lookup | src/githubHelper.ts:1217 | `map.get(n)` and `usermap[key]`: a value is found if and only if some entry has the key, and then it is an entry's value under that key |
| Milestones.SetSpec | src/githubHelper.ts:1402 | after `map.set(n, m)`, `n` gives `m`, every other key gives what it gave before, no key other than `n` is added, and keys stay distinct |
| Milestones.FirstWithTitle | src/githubHelper.ts:1219-1224 | the first milestone in map order with exactly the title, and none if and only if no milestone has it |
| GithubHelper.MilestoneMapOfFinds | src/githubHelper.ts:1400-1402 | the map built from the fetched milestones has distinct keys; each fetched milestone's number is a key; each key gives a fetched milestone with that number |
| GithubHelper.MilestoneMapOfDistinct | src/githubHelper.ts:1400-1402 | with distinct milestone numbers each fetched milestone is found under its own number |
| GithubHelper.MentionPassesUnchanged | src/githubHelper.ts:1165-1183 | text without `@` passes the usermap and inactive-user passes unchanged |
| GithubHelper.ProjectPassesUnchanged | src/githubHelper.ts:1194-1257 | text without `#` and `%` passes the cross-project reference and milestone passes unchanged |
| GithubHelper.GithubHelper.constructor | src/githubHelper.ts:75-94 | the GitHub URL is the configured base URL or github.com; owner and repository come from the settings; the delay is 2000 ms; no repository id and no milestone map yet |
| GithubHelper.IntendedProjectPassesUnchanged | src/githubHelper.ts:1194-1257 | text without `#` and `%` passes the corrected cross-project reference and milestone passes unchanged |
| GithubHelper.GithubHelper.ConvertIssuesAndComments | src/githubHelper.ts:1136-1314 | without a migration line, text with no `@`, `#`, `%` or `]` comes back unchanged; without a projectmap and with every attachment movable, the result is what the passes as written produce |
| GithubHelper.GithubHelper.AsWrittenAgreesWithCorrected | src/githubHelper.ts:1136-1314 | the passes as written and the corrected passes give the same text when no projectmap is configured and every attachment can be moved |
| GithubHelper.GithubHelper.PlainTextUnchanged | src/githubHelper.ts:1136-1314 | without a migration line, text with no `@`, `#`, `%` or `]` comes out of every rewrite pass unchanged |
| GithubHelper.GithubHelper.ConvertMilestone | src/githubHelper.ts:384-392 | an error exactly when no milestone map is registered; none for an item without milestone; otherwise the number of the first map entry with the item's milestone title, none if and only if no entry has it |
| GithubHelper.GithubHelper.RegisterMilestoneMap | src/githubHelper.ts:1396-1404 | a given map replaces the field; without one, an existing map is kept, and a missing one is built from the fetched milestones |
| GithubHelper.GithubHelper.CreateMilestone | src/githubHelper.ts:726-745 | the title is kept; the description is the converted description without a migration line; the state is open if and only if the milestone is active; `due_on` is set exactly for a non-empty due date, as that date followed by "T00:00:00Z" |
| GithubHelper.GithubHelper.NoteComment | src/githubHelper.ts:520-531 | the comment keeps the note's creation date; its body is the converted note body, with the migration line added exactly when the token owner did not write the note or the body is empty |
| GithubHelper.GithubHelper.CommentsAreKeptNotes | src/githubHelper.ts:515-535 | one comment per note that is not skipped, in order, each that note's comment |
| GithubHelper.GithubHelper.ProcessedNotes | src/githubHelper.ts:502-543 | for non-empty notes: the kept notes are sorted by id; they are exactly the notes that are not skipped; the comments are one per kept note, in that order |
| GithubHelper.GithubHelper.ProcessNotesIntoComments | src/githubHelper.ts:502-543 | missing or empty notes give `[]`; otherwise the comments of the notes sorted by id with skipped ones dropped |
| GithubHelper.GithubHelper.CommentsOfSorted | src/githubHelper.ts:515-535 | the loop over the sorted notes builds exactly the comments of the kept notes |
| GithubHelper.GithubHelper.UpdatePullRequestState | src/githubHelper.ts:1051-1084 | a merged request becomes closed in place unless its pull request is closed or it is a dry run; the update sent is the issue state update for the new state; the labels are untouched |
| GithubHelper.GithubHelper.FallbackTitle | src/githubHelper.ts:926 | the stand-in issue's title is the trimmed merge-request title followed by " - [state]" |
| GithubHelper.GithubHelper.CreateFallbackIssue | src/githubHelper.ts:909-965 | the import API is used if and only if configured; either way the title is the fallback title and the body the converted merge line and description; the state is untouched |
| GithubHelper.GithubHelper.CreateFallbackRequest | src/githubHelper.ts:952-965 | the plain create call carries the fallback title, converted body and mapped assignees, and "gitlab merge request" is appended to the merge request's own labels, creating the list when missing |
| GithubHelper.GithubHelper.ImportFallbackIssue | src/githubHelper.ts:922-950 | the imported issue carries the fallback title and converted body, the first mapped assignee if any, the request's dates, closed if and only if merged or closed, the label "gitlab merge request", and the processed notes as comments for a real merge request |
| TextRewrite.DiffSide | src/githubHelper.ts:1369-1382 | a diff position names a line if and only if the new or the old line and path are set; side R when the old line or path is missing, side L otherwise |
| TextRewrite.CreateLineRef | src/githubHelper.ts:1355-1389 | empty if and only if there is no diff position, the repository link is not a github.com link or the head sha is missing; otherwise "Commented on [path line n](repoLink/compare/base..head#diff-md5(path) side n)" with the side and line of `DiffSide`, or "Commented on [head](repoLink/compare/base..head)" when no line is named, followed by a blank line |
| TextRewrite.AddMigrationLine | src/githubHelper.ts:1322-1349 | unchanged without item, author, username or creation date; otherwise starts "In GitLab by @user on date" and ends with a blank line and the text; exactly those two parts when there is no diff position |
| TextRewrite.FirstAlternative | src/githubHelper.ts:1166-1168 | the first key, in order, whose alternative matches, and none if and only if no key's does |
| TextRewrite.UserMentionAt | src/githubHelper.ts:1165-1171 | a match is at an `@`; it is `@key` for some usermap key and becomes `@` and the mapped name; no match if and only if no `@key` occurs there (no word boundary: a key that is a prefix of a longer name matches too) |
| TextRewrite.InactiveMentionAt | src/githubHelper.ts:1177-1183 | a match is at an `@`; it is `@key` for the first inactive-map key, in key order, that occurs there, and becomes the prepend text, the mapped name and the key in parentheses; no match if and only if no `@key` occurs there |
| TextRewrite.IssueRefAt | src/githubHelper.ts:1202-1203 | a local reference match starts at `#` |
| TextRewrite.IssueRefPassKeepsText | src/githubHelper.ts:1189-1203 | the local `#n` pass gives back any text unchanged, because `issueReplacer` restores the `#` it matched |
| TextRewrite.ProjectIssueRefAt | src/githubHelper.ts:1194-1201 | a cross-project match lies within the text |
| TextRewrite.ProjectIssueRefAtSpec | src/githubHelper.ts:1194-1201 | the cross-project pattern matches exactly where a mapped key is followed by `#` and a digit |
| TextRewrite.ProjectRefDoubleHash | src/githubHelper.ts:1194-1201 | as written, `key#n` with a single mapped key becomes `target##n` |
| TextRewrite.LaterProjectKeyUndefined | src/githubHelper.ts:1194-1201 | as written, a reference to the second of two mapped keys becomes "undefined##undefined" |
| TextRewrite.ProjectIssueRefAtIntended | src/githubHelper.ts:1194-1201 | the corrected pass matches exactly where a mapped key is followed by `#` and a digit |
| TextRewrite.ProjectRefSingleHash | src/githubHelper.ts:1194-1201 | corrected: `key#n` becomes `target#n` |
| TextRewrite.LaterProjectKeyIntended | src/githubHelper.ts:1194-1201 | corrected: a reference to the second key becomes that key's target, `#` and the number |
| TextRewrite.ClosingQuote | src/githubHelper.ts:1239-1243 | the lazy `".*?"` closes at the first `"` after the opening one, with no line terminator before it |
| TextRewrite.ProjectMilestoneTitleAt | src/githubHelper.ts:1239-1248 | matches exactly where a mapped key is followed by `%"title"`; the match is that of the first such key and runs to the closing quote; as written, the replacement is "Milestone \"title\" in target" for the first key and "Milestone undefined in …" for any later key |
| TextRewrite.ProjectMilestoneTitleAtIntended | src/githubHelper.ts:1239-1248 | corrected: the match of the first key becomes "Milestone", the quoted title, "in" and that key's target |
| TextRewrite.ProjectMilestoneTitleFirstKey | src/githubHelper.ts:1239-1248 | as written, `key%"title"` with a single mapped key becomes `Milestone "title" in target` |
| TextRewrite.LaterProjectMilestoneTitleUndefined | src/githubHelper.ts:1239-1248 | as written, a title reference to the second of two mapped keys becomes "Milestone undefined in undefined" |
| TextRewrite.LaterProjectMilestoneTitleIntended | src/githubHelper.ts:1239-1248 | corrected: that reference names the title and the second key's target |
| TextRewrite.ProjectMilestoneNumberAt | src/githubHelper.ts:1250-1257 | matches exactly where a mapped key is followed by `%` and a digit; the match is that of the first such key and covers its digits; as written, the replacement is the milestone link for the first key and a link to milestone `undefined` of project `undefined` for any later key |
| TextRewrite.ProjectMilestoneNumberAtIntended | src/githubHelper.ts:1250-1257 | corrected: the match of the first key becomes the link to that milestone number in that key's target project |
| TextRewrite.ProjectMilestoneNumberFirstKey | src/githubHelper.ts:1250-1257 | as written, `key%n` with a single mapped key becomes `[Milestone n in target](githubUrl/owner/target)` |
| TextRewrite.LaterProjectMilestoneNumberUndefined | src/githubHelper.ts:1250-1257 | as written, a number reference to the second of two mapped keys becomes a link to milestone `undefined` of project `undefined` |
| TextRewrite.LaterProjectMilestoneNumberIntended | src/githubHelper.ts:1250-1257 | corrected: that reference links milestone n of the second key's target |
| TextRewrite.MilestoneReplacer | src/githubHelper.ts:1209-1237 | a milestone found by number (`get`) or by title (first equal title) becomes `[title](repoLink/milestone/number)`; otherwise the result is "'Reference to deleted milestone ", the number (or the title when there is no number) and a closing quote, and it starts that way if and only if none is found |
| TextRewrite.MilestoneTitleRefAt | src/githubHelper.ts:1259-1263 | a `%"title"` match starts at `%` |
| TextRewrite.MilestoneNumberRefAt | src/githubHelper.ts:1265-1269 | a `%n` match starts at `%` |
| Utils.LinkAtSound | src/utils.ts:19 | what the link expression finds is a well-formed `(!?)[name](/uploads…)` link whose text occurs at the offset |
| Utils.LinkAtComplete | src/utils.ts:19 | a well-formed link is found wherever its text occurs |
| Utils.LinkMatchesAreLinks | src/utils.ts:27-29 | each `matchAll` result is a link found at its offset, and the offsets increase |
| Utils.Basename | src/utils.ts:37 | a basename contains no `/` |
| Utils.BasenameOfPath | src/utils.ts:37 | the basename of `dir/name` is `name` |
| Utils.RelativePath | src/utils.ts:45-50 | the object path is `repoId/sha256(url)/basename` when the repository id is truthy, and `sha256(url)/basename` otherwise |
| Utils.S3UrlShape | src/utils.ts:56-60 | the S3 link is `https://<bucket>.s3.amazonaws.com/<path>`, or `https://s3.<region>.amazonaws.com/<bucket>/<path>` when a region is set |
| Utils.AzureBase | src/utils.ts:117-119 | the configured endpoint, else `https://<account>.blob.core.windows.net` when an account is set, else `''` |
| Utils.AzureUrl | src/utils.ts:117-120 | the Azure link is exactly the base, `/`, the container, `/` and the path |
| Utils.GitlabUrl | src/utils.ts:137-140 | the host, then `/` only when the host lacks a trailing one, then the project path and the link's url |
| Utils.StorageFor | src/utils.ts:36-85 | S3 exactly when a bucket is set, else Azure exactly when a container is set, else GitLab links |
| Utils.OffsetsRecordRelocations | src/utils.ts:27-135 | since match offsets increase, the dictionary holds each match's own relocated text under its offset |
| Utils.OffsetReplaceIsRelocation | src/utils.ts:147-150 | replacing through the offset dictionary gives each link its relocated text, as relocating every link directly does |
| Utils.MigrateAttachments | src/utils.ts:14-151 | the loop and the final replace compute the relocation of every link of the body |
| Utils.OffsetDictionaryReplace | src/utils.ts:147-150 | the replace through the dictionary built from all matches is the relocation of every link |
| Utils.NoUploadLinksUnchanged | src/utils.ts:19-150 | a body without `](/uploads` comes back unchanged, in the code as written and in the corrected rewrite |
| Utils.OnlyLinkAt | src/utils.ts:19 | in a body made of text, one link and text, the expression matches at that link only |
| Utils.OneLinkRewritten | src/utils.ts:147-150 | only the one link of such a body is rewritten, to its relocated text or to "undefined" |
| Utils.GitlabLinkMadeAbsolute | src/utils.ts:135-143 | with no bucket or container, the link becomes `prefix[name](host/projectPath/url)`, keeping the `!` and the name |
| Utils.FailedDownloadBecomesUndefined | src/utils.ts:39-150 | as written, a link whose download fails under S3 is replaced by "undefined" |
| Utils.FailedDownloadsKeepBody | src/utils.ts:39-150 | corrected: when no attachment can be moved, the body is unchanged |
| Utils.KeepingFailuresAgreesOnMovedLinks | src/utils.ts:147-150 | corrected: a link that can be moved is still relocated, and one that cannot keeps its text |
| Utils.MovedLinksAgree | src/utils.ts:147-150 | when every link of the body can be moved, the rewrite as written and the corrected one give the same body |
| Utils.DisplayName | src/utils.ts:156-163 | a user with a non-empty mapping is shown as `@` and the GitHub name, any other as the GitLab name |
| Utils.DisplayNames | src/utils.ts:155-164 | one display name per user, in order |
| Utils.OrganizationUsersString | src/utils.ts:153-170 | "" for no users; otherwise a blank line, `**prefix:** ` and the display names joined by ", " |
| Utils.MappedUserMentioned | src/utils.ts:156-159 | any user the usermap maps to a non-empty GitHub name appears in the joined list as `@` and that name |
| Migration.CreatePlaceholderIssue | src/index.ts:88-98 | the placeholder has iid k, state closed, `isPlaceholder`, title "[PLACEHOLDER ISSUE] - for issue #k", the fixed description, and no author, labels, assignees or milestone |
| Migration.CreateReplacementIssue | src/index.ts:104-114 | the replacement keeps iid and state, its title is the original title followed by " [REPLACEMENT ISSUE]", its description is the fixed text naming the original id and title, and it is not a placeholder |
| Migration.SelectIssuesIsSortedSelection | src/index.ts:281-298 | the selected issues are sorted by iid, and are exactly the fetched issues that pass the open-state and date filters |
| Migration.FindIid | src/index.ts:305-322 | the issue with iid n, none if and only if no issue has it |
| Migration.Aligned | src/index.ts:305-322 | the aligned list has max-iid elements; element k has iid k+1 and is an original issue or the placeholder for k+1 |
| Migration.AlignedKeepsIssues | src/index.ts:305-322 | every original issue sits at position iid−1 |
| Migration.AlignedKeepsOrder | src/index.ts:314-315 | the original issues are an in-order subsequence of the aligned list |
| Migration.AlignedOfContiguous | src/index.ts:305-322 | a list whose iids already count 1, 2, … is left unchanged |
| Migration.IssueCounters.constructor | src/index.ts:13-17 | all three counters start at 0 |
| Migration.FillTurn | src/index.ts:308-320 | one loop turn either keeps the element or splices the placeholder for i+1 in front of it and counts it; the loop state is preserved and other counters are untouched |
| Migration.FillGaps | src/index.ts:305-322 | the spliced array is the aligned list; the placeholder counter grows by the number of placeholders inserted; the other counters are untouched |
| Migration.FindByTrimmedTitle | src/index.ts:331-333 | the first GitHub issue whose trimmed title equals the issue's trimmed title, none if and only if there is no such issue |
| Migration.IssueOutcomeForSpec | src/index.ts:329-377 | an issue is created only when no GitHub issue has its trimmed title; a failed creation leads to a replacement only when replacements are enabled |
| Migration.ExistingIssueSynced | src/index.ts:369-376 | with a title match, only the state update is made, and it is sent only for a closed issue whose GitHub issue is open, outside a dry run |
| Migration.TransferIssue | src/index.ts:329-377 | one turn's outcome; the replacement counter grows by one exactly when a replacement was created, the failure counter exactly when the replacement failed too |
| Migration.TransferIssues | src/index.ts:266-378 | the issues are the selected ones, aligned when placeholders are enabled; each outcome is that issue's; the counters grow by the placeholders, replacements and failures |
| Migration.TransferEach | src/index.ts:329-378 | the loop gives one outcome per issue in order, and counts replacements and failures |
| Migration.IssueOutcomesAt | src/index.ts:329-378 | one outcome per issue, each that issue's outcome |
| Migration.NoReplacementsNoCounters | src/index.ts:345 | with replacements disabled, neither the replacement nor the failure counter moves |
| Migration.FindContainingTitle | src/index.ts:457-460 | the first GitHub issue whose trimmed title contains the merge request's trimmed title, none if and only if there is no such issue |
| Migration.RequestOutcomeForSpec | src/index.ts:451-495 | a merge request is created if and only if no pull request has its trimmed title and no issue's trimmed title contains it; its state is synced only on a pull-request match |
| Migration.TransferMergeRequest | src/index.ts:454-494 | one turn's outcome; the merge request's state changes only as the pull-request sync changes it; its labels are untouched |
| Migration.SelectedRequests | src/index.ts:414-427 | the filters keep exactly the fetched merge requests that pass the open-state and date filters, drawn from the fetched ones |
| Migration.SelectMergeRequestsIsSortedSelection | src/index.ts:414-430 | the selected merge requests are sorted by iid, are exactly the fetched ones that pass the filters, and are distinct |
| Migration.TransferMergeRequests | src/index.ts:402-495 | the merge requests walked through are the filtered ones sorted by iid; one outcome per request, each that request's; each state changes only as the sync changes it; labels are untouched |
| Migration.MatchMergeRequests | src/index.ts:451-495 | one outcome per merge request, each that request's, with states updated as the sync does and labels untouched |
| Migration.MilestonesCreatedWhenAbsent | src/index.ts:173-209 | the milestones created are sorted by id, and are exactly the selected milestones whose title is not on GitHub |
| Migration.MilestonePayloadsAt | src/index.ts:196-209 | one payload per milestone to create, each from the helper's `createMilestone` |
| Migration.TransferMilestones | src/index.ts:165-210 | a dry run sends nothing (the helper's `createMilestone` returns before the call); otherwise the payloads of the selected, absent milestones, in id order |
| Migration.LabelsToCreateSpec | src/index.ts:246-257 | a label is created only if its name is absent on GitHub, every such label is created outside a dry run, and a dry run creates none |
| Migration.LabelPayloads | src/index.ts:240-258 | one payload per label, each the helper's createLabel payload for it: name and description kept, colour without its leading character (`color.substring(1)`) |
| Migration.RenameLabel | src/index.ts:241-244 | the label's name is lower-cased in place when asked, and the payload is built from the new name |
| Migration.SendIfAbsent | src/index.ts:246-257 | the payload is sent exactly when its name is absent and it is not a dry run |
| Migration.CreateMissingLabels | src/index.ts:240-258 | every label is renamed in place, and the labels sent are exactly those whose new name is absent |
| Migration.TransferLabels | src/index.ts:217-259 | "has attachment" (when asked) and "gitlab merge request" are appended, every label is lower-cased when asked, and the labels sent are the absent ones |
| LegacyIndex.GapFilled | index.js:225-235 | the filled array is at least as long as the input and at most twice as long |
| LegacyIndex.FillGaps | index.js:225-235 | the loop with its extra increment leaves exactly the array described by `GapFilled` |
| LegacyIndex.GapFilledKeepsIssues | index.js:225-235 | dropping the placeholders gives back the fetched issues, in order |
| LegacyIndex.PlaceholderBeforeIssue | index.js:230-232 | every placeholder sits right in front of a fetched issue: one placeholder per gap, however wide |
| LegacyIndex.ContiguousUnchanged | index.js:225-235 | an array whose iids count up from 1 is left as it is |
| LegacyIndex.WideGapMisnumbers | index.js:225-235 | the lone issue 3 yields `[placeholder, 3]`: it is second in the filled array, with one placeholder for two missing numbers |
| LegacyIndex.UpdateIssueState | index.js:480-493 | an update is sent if and only if the GitLab state is closed and the GitHub issue is not; it closes that number |
| LegacyIndex.UpdateIssueStateAsCurrent | index.js:480-493 | the legacy update is the current one outside a dry run |
| LegacyIndex.IssueActionForSpec | index.js:242-261 | an issue is created exactly when no GitHub issue has its trimmed title; otherwise that issue's state is synced |
| LegacyIndex.IssueTurn | index.js:243-261 | one loop turn looks the trimmed title up and decides |
| LegacyIndex.TransferIssues | index.js:195-263 | the issues are sorted by id (not iid) and gap-filled; one decision per element of the filled array, in order |
| LegacyIndex.DecideIssues | index.js:242-262 | one decision per issue, in order |
| LegacyIndex.PlaceholdersMatchOneIssue | index.js:219-244 | all placeholders share one title, so once GitHub has an open issue with that title every placeholder is taken for it and closes it |
| LegacyIndex.AddMigrationLine | index.js:581-599 | unchanged when item, author, username or creation date is null; otherwise "In GitLab by @u on date", a blank line and the text |
| LegacyIndex.AddMigrationLineAsCurrent | index.js:581-599 | with a non-empty author and date and no diff position the legacy line equals the current one |
| LegacyIndex.EmptyUsernameStillAttributed | index.js:583 | an empty username is not null: the legacy code still adds a line where the current code does not |
| LegacyIndex.UserProjectAt | index.js:557 | the expression matches at the first alternative that occurs, and not at all when none does |
| LegacyIndex.ConvertIssuesAndComments | index.js:545-573 | the result is the text with its attribution line: the replaced string is dropped at line 557 |
| LegacyIndex.IntendedRewritesMention | index.js:557-560 | had the replaced string been returned, `@key` of the first usermap key would become `@` and its GitHub name |
| LegacyIndex.MentionNotRewritten | index.js:557-571 | as written, that mention comes back unchanged, unlike the intended conversion |
| LegacyIndex.CommentRequestsOfMigrated | index.js:442-466 | one comment per note the legacy filter keeps, in order, with that note's converted body |
| LegacyIndex.CreateIssueComments | index.js:431-473 | the notes sorted by id, filtered, one comment each with the converted body for the GitHub issue's number |
| LegacyIndex.CreateMilestone | index.js:500-516 | the current payload mapping with the description passed through unconverted |
| LegacyIndex.CreateLabel | index.js:523-534 | the name and the colour without its first character; no description |
| LegacyIndex.LabelPayloads | index.js:164-187 | one legacy payload per label |
| LegacyIndex.RenameLabel | index.js:166-169 | the name is lower-cased in place when asked, and the payload built from the new name |
| LegacyIndex.CreateLabels | index.js:164-187 | every label is renamed in place and the labels sent are those whose new name is absent |
| LegacyIndex.TransferLabels | index.js:148-188 | "has attachment" is appended when asked (no merge-request label), the labels are renamed, and the absent ones are sent |
| LegacyUtils.UserAlternatives | utils.js:13-15 | one alternative `@key` per usermap key, in key order |
| LegacyUtils.ProjectAlternatives | utils.js:16-24 | one alternative `key#` per projectmap key, in key order |
| LegacyUtils.GenerateUserProjectRegex | utils.js:11-27 | the pattern joins all alternatives, user mentions first, with `\|`; it is empty if and only if both maps are empty or null |
| LegacyUtils.BothPartsAlternation | utils.js:20-23 | the user part, one `\|` and the project part join exactly all alternatives |
| LegacyUtils.UserPart | utils.js:14 | `'@' + keys.join('\|@')` joins the `@key` alternatives |
| LegacyUtils.ProjectPart | utils.js:23 | `keys.join('#\|') + '#'` joins the `key#` alternatives |
| LegacyUtils.JoinPrefixed | utils.js:14 | a prefix before a join with the prefixed separator is the join of the prefixed keys |
| LegacyUtils.JoinSuffixed | utils.js:23 | a join with the suffixed separator followed by the suffix is the join of the suffixed keys |
| LegacyUtils.JoinConcat | utils.js:20-23 | joining two non-empty lists puts exactly one separator between their joins |

## Left out

- Network clients: Octokit, gitbeaker, axios, the S3 and Azure upload calls, `registerRepoId`, `recreateRepo` and the polling of `requestImportIssue`. Their results are inputs: fetched lists, a `createSucceeds` predicate for issue creation, and a download predicate for attachments.
- `createIssueAndComments` and `createPullRequestAndComments`: only the outcome of issue creation (success or failure) is modelled. The non-fallback path of `createPullRequest` is not modelled; its fallback issue is.
- `src/gitlabHelper.ts`, `gitlabHelper.js` and the trailing-slash handling of the GitLab host: the host and project path are given strings.
- Sleeping and pacing (`utils.sleep(this.delayInMs)`); console output, `process.exit` and the JSON dump of `logMergeRequests`.
- Dates: `Date.parse` and the `en-US` formatting are uninterpreted functions of `Config.Env`. So are the md5 and sha256 digests and the user-supplied `skipMatchingComments` regular expressions.
- Calls whose arity does not match the callee (src/index.ts:338 and 467, src/githubHelper.ts:1305-1311): each function is modelled with its own declared parameters.
- Crash paths become preconditions or are left out: the `undefined` item at index.js:387, the push onto a missing `props.labels` at index.js:419, and `Object.keys` of a missing inactive-user map (src/githubHelper.ts:1151-1153). The model assumes an inactive-user map is present.
- Migration.FillGaps: require strictly increasing iids of at least 1, which the source needs to terminate (a duplicate iid or an iid of 0 makes its loop insert forever).
- Migration.TransferIssues: require strictly increasing iids of at least 1, which the source needs to terminate (a duplicate iid or an iid of 0 makes its loop insert forever).
- Migration.TransferMergeRequests: `updatePullRequestState` is not awaited at src/index.ts:485; the model treats it as completing before the next merge request.
- LegacyUtils.GenerateUserProjectRegex: only the pattern string is modelled. A `.` in a key is a regular-expression wildcard in the code; the legacy matcher `LegacyIndex.UserProjectAt` matches keys literally.
- GithubHelper.GithubHelper.ConvertIssuesAndComments: converted text goes through the corrected cross-project and attachment passes, not the ones the code runs (Findings rows 1 to 5); `ConvertWithAsWritten` is the code's pipeline and `AsWrittenAgreesWithCorrected` says when the two agree. Its own contract fixes the output only for plain text (no `@`, `#`, `%` or `]`, without a migration line) and, with no projectmap and every attachment movable, as the code's pipeline.
- GithubHelper.GithubHelper.CreateMilestone: converted text goes through the corrected cross-project and attachment passes, not the ones the code runs (Findings rows 1 to 5); `ConvertWithAsWritten` is the code's pipeline and `AsWrittenAgreesWithCorrected` says when the two agree.
- GithubHelper.GithubHelper.NoteComment: converted text goes through the corrected cross-project and attachment passes, not the ones the code runs (Findings rows 1 to 5); `ConvertWithAsWritten` is the code's pipeline and `AsWrittenAgreesWithCorrected` says when the two agree.
- GithubHelper.GithubHelper.ProcessNotesIntoComments: converted text goes through the corrected cross-project and attachment passes, not the ones the code runs (Findings rows 1 to 5); `ConvertWithAsWritten` is the code's pipeline and `AsWrittenAgreesWithCorrected` says when the two agree.
- GithubHelper.GithubHelper.CreateFallbackIssue: converted text goes through the corrected cross-project and attachment passes, not the ones the code runs (Findings rows 1 to 5); `ConvertWithAsWritten` is the code's pipeline and `AsWrittenAgreesWithCorrected` says when the two agree.
- GithubHelper.GithubHelper.ImportFallbackIssue: converted text goes through the corrected cross-project and attachment passes, not the ones the code runs (Findings rows 1 to 5); `ConvertWithAsWritten` is the code's pipeline and `AsWrittenAgreesWithCorrected` says when the two agree.
- GithubHelper.GithubHelper.CreateFallbackRequest: converted text goes through the corrected cross-project and attachment passes, not the ones the code runs (Findings rows 1 to 5); `ConvertWithAsWritten` is the code's pipeline and `AsWrittenAgreesWithCorrected` says when the two agree.
- Migration.TransferMilestones: converted text goes through the corrected cross-project and attachment passes, not the ones the code runs (Findings rows 1 to 5); `ConvertWithAsWritten` is the code's pipeline and `AsWrittenAgreesWithCorrected` says when the two agree.
- TextRewrite.UserMentionAt: keys are matched literally. The code builds its regular expressions from unescaped keys, so a key such as `first.last` also matches `@firstXlast` there.
- TextRewrite.InactiveMentionAt: keys are matched literally. The code builds its regular expressions from unescaped keys, so a key such as `first.last` also matches `@firstXlast` there.
- TextRewrite.ProjectIssueRefAt: keys are matched literally. The code builds its regular expressions from unescaped keys, so a key such as `group/first.last` also matches `group/firstXlast#7` there.
- TextRewrite.ProjectMilestoneTitleAt: keys are matched literally. The code builds its regular expressions from unescaped keys, so a key such as `group/first.last` also matches `group/firstXlast%"v1"` there.
- TextRewrite.ProjectMilestoneNumberAt: keys are matched literally. The code builds its regular expressions from unescaped keys, so a key such as `group/first.last` also matches `group/firstXlast%3` there.
- Conversion.ConvertLabels: lower-casing is ASCII only; JavaScript's `toLowerCase` also lowers non-ASCII letters ("Ärger" becomes "ärger").
- Conversion.KeptLabels: lower-casing is ASCII only; JavaScript's `toLowerCase` also lowers non-ASCII letters ("Ärger" becomes "ärger").
- Migration.RenameLabel: lower-casing is ASCII only; JavaScript's `toLowerCase` also lowers non-ASCII letters ("Ärger" becomes "ärger").
- Migration.TransferLabels: lower-casing is ASCII only; JavaScript's `toLowerCase` also lowers non-ASCII letters ("Ärger" becomes "ärger").
- LegacyIndex.RenameLabel: lower-casing is ASCII only; JavaScript's `toLowerCase` also lowers non-ASCII letters ("Ärger" becomes "ärger").
- LegacyIndex.TransferIssues: index.js:176-178 and 250-252 await an arrow function that returns nothing, so the legacy creations run concurrently and in no fixed order; the model takes them one after the other in array order.
- LegacyIndex.CreateLabels: index.js:176-178 and 250-252 await an arrow function that returns nothing, so the legacy creations run concurrently and in no fixed order; the model takes them one after the other in array order.
- LegacyIndex.TransferLabels: index.js:176-178 and 250-252 await an arrow function that returns nothing, so the legacy creations run concurrently and in no fixed order; the model takes them one after the other in array order.
- TextRewrite.IssueRefAt, TextRewrite.ProjectIssueRefAt, TextRewrite.MilestoneTitleRefAt, TextRewrite.MilestoneNumberRefAt: their own contracts only locate the match; what the passes do is stated by IssueRefPassKeepsText, ProjectIssueRefAtSpec, ProjectRefDoubleHash, LaterProjectKeyUndefined and MilestoneReplacer.
- GithubHelper.GithubHelper.PlainTextUnchanged: the rewrite pipeline is characterised on plain text and through its passes' lemmas, not by one contract over every input.
- Label reference conversion and merge-request reference conversion in `convertIssuesAndComments` are commented out or TODO in the source and have no effect.
- `processNote`, release transfer, batch mode and placeholder milestones are not part of this model.

## Findings

| source | as written | input that shows it | evidently intended | confidence | as-written member | corrected member |
|---|---|---|---|---|---|---|
| src/githubHelper.ts:1199 | the callback adds `'#'` and then `issueReplacer(p2)`, which adds another `'#'` | projectmap `{key: target}`, text `key#7` | `target#7` | high, not executed | TextRewrite.ProjectRefDoubleHash | TextRewrite.ProjectRefSingleHash |
| src/githubHelper.ts:1194-1201 | the callback reads only groups 1 and 2, which are set only by the first key's alternative | projectmap `{a: x, b: y}`, text `b#7` | `y#7` | high, not executed | TextRewrite.LaterProjectKeyUndefined | TextRewrite.LaterProjectKeyIntended |
| src/utils.ts:39-42, 147-150 | no dictionary entry is recorded for a failed download, so the final replace writes the callback's `undefined` | S3 configured, `![a](/uploads/x/y.png)` whose download returns null | the original link is kept | high, not executed | Utils.FailedDownloadBecomesUndefined | Utils.FailedDownloadsKeepBody |
| src/githubHelper.ts:1239-1248 | the title callback reads only groups 1 and 2, which are set only by the first key's alternative | projectmap `{a: x, b: y}`, text `b%"v1"` | `Milestone "v1" in y` | high, not executed | TextRewrite.LaterProjectMilestoneTitleUndefined | TextRewrite.LaterProjectMilestoneTitleIntended |
| src/githubHelper.ts:1250-1257 | the number callback reads only groups 1 and 2, which are set only by the first key's alternative | projectmap `{a: x, b: y}`, text `b%3` | a link to milestone 3 of `y` | high, not executed | TextRewrite.LaterProjectMilestoneNumberUndefined | TextRewrite.LaterProjectMilestoneNumberIntended |
| index.js:231-232 | after a splice the extra `i++` moves past the shifted element without re-checking it, so a gap of two numbers gets one placeholder | issues with iids `[3]` | `[placeholder 1, placeholder 2, 3]`, as the later src/index.ts:305-322 does | high, not executed | LegacyIndex.WideGapMisnumbers | Migration.FillGaps |

The helper's rewrite pipeline uses the corrected members of rows 1 to 5; row 6's corrected member is the gap fill of the current engine.
