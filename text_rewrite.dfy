/**
 * The text conversions of convertIssuesAndComments: the attribution line,
 * links to diff lines, and one matcher per regular expression that rewrites
 * user mentions, issue references and milestone references.
 */
module TextRewrite {
  import opened Wrappers
  import opened Strings
  import opened Config
  import opened Entities
  import opened Milestones
  import opened Scanner

  const GitHubLocation := "https://github.com"

  // ---------------------------------------------------------------------------
  // Attribution line and diff line references

  /** Side ('R' new, 'L' old), path and line a diff slug points at, if the position names one. */
  function DiffSide(p: Position): (r: Option<(char, string, nat)>)
    ensures r.Some? <==> (p.newLine != 0 && p.newPath != "") || (p.oldLine != 0 && p.oldPath != "")
    ensures r.Some? && (p.oldLine == 0 || p.oldPath == "") ==> r.value == ('R', p.newPath, p.newLine)
    ensures r.Some? && p.oldLine != 0 && p.oldPath != "" ==> r.value == ('L', p.oldPath, p.oldLine)
  {
    if (p.newLine != 0 && p.newPath != "") || (p.oldLine != 0 && p.oldPath != "") then
      if p.oldLine == 0 || p.oldPath == "" then Some(('R', p.newPath, p.newLine))
      else Some(('L', p.oldPath, p.oldLine))
    else None
  }

  predicate LinksToGithubDiff(position: Option<Position>, repoLink: string) {
    repoLink != "" && StartsWith(repoLink, GitHubLocation) && position.Some? && position.value.headSha != ""
  }

  /** createLineRef */
  function CreateLineRef(position: Option<Position>, repoLink: string, md5Hex: string -> string): (r: string)
    ensures r == "" <==> !LinksToGithubDiff(position, repoLink)
    ensures r != "" ==> EndsWith(r, ")\n\n")
    ensures r != "" && DiffSide(position.value).Some? ==>
      var (side, path, line) := DiffSide(position.value).value;
      var compare := repoLink + "/compare/" + position.value.baseSha + ".." + position.value.headSha;
      r == "Commented on [" + path + " line " + NatToString(line) + "](" + compare + "#diff-" + md5Hex(path) + [side] + NatToString(line) + ")\n\n"
    ensures r != "" && DiffSide(position.value).None? ==>
      var compare := repoLink + "/compare/" + position.value.baseSha + ".." + position.value.headSha;
      r == "Commented on [" + position.value.headSha + "](" + compare + ")\n\n"
  {
    if !LinksToGithubDiff(position, repoLink) then ""
    else
      var p := position.value;
      var compare := repoLink + "/compare/" + p.baseSha + ".." + p.headSha;
      match DiffSide(p)
      case Some((side, path, line)) =>
        var link := "Commented on [" + path + " line " + NatToString(line) + "](" + compare + "#diff-" + md5Hex(path) + [side] + NatToString(line);
        link + ")\n\n"
      case None =>
        var link := "Commented on [" + p.headSha + "](" + compare;
        link + ")\n\n"
  }

  /** The item has an author with a username and a creation date (all truthy). */
  predicate HasAttribution(item: Option<Origin>) {
    item.Some? && item.value.username.Some? && item.value.username.value != ""
    && item.value.createdAt.Some? && item.value.createdAt.value != ""
  }

  /** The migration line starts with the attribution and ends with the original text. */
  lemma SummaryAffixes(attribution: string, lineRef: string, str: string)
    ensures var r := (if lineRef == "" then attribution else attribution + "\n\n" + lineRef) + "\n\n" + str;
      StartsWith(r, attribution) && EndsWith(r, "\n\n" + str)
  {
    var summary := if lineRef == "" then attribution else attribution + "\n\n" + lineRef;
    assert summary + "\n\n" + str == summary + ("\n\n" + str);
    ConcatAffixes(summary, "\n\n" + str);
    if lineRef != "" {
      assert summary == attribution + ("\n\n" + lineRef);
      ConcatAffixes(attribution, "\n\n" + lineRef);
    }
    StartsWithTrans(summary + ("\n\n" + str), summary, attribution);
  }

  /** addMigrationLine */
  function AddMigrationLine(str: string, item: Option<Origin>, repoLink: string, env: Env): (r: string)
    ensures !HasAttribution(item) ==> r == str
    ensures HasAttribution(item) ==>
      StartsWith(r, "In GitLab by @" + item.value.username.value + " on " + env.formatDate(item.value.createdAt.value))
      && EndsWith(r, "\n\n" + str)
    ensures HasAttribution(item) && item.value.position.None? ==>
      r == "In GitLab by @" + item.value.username.value + " on " + env.formatDate(item.value.createdAt.value) + "\n\n" + str
    ensures HasAttribution(item) ==>
      var attribution := "In GitLab by @" + item.value.username.value + " on " + env.formatDate(item.value.createdAt.value);
      var lineRef := CreateLineRef(item.value.position, repoLink, env.md5Hex);
      r == (if lineRef == "" then attribution else attribution + "\n\n" + lineRef) + "\n\n" + str
  {
    if !HasAttribution(item) then str
    else
      var attribution := "In GitLab by @" + item.value.username.value + " on " + env.formatDate(item.value.createdAt.value);
      var lineRef := CreateLineRef(item.value.position, repoLink, env.md5Hex);
      SummaryAffixes(attribution, lineRef, str);
      (if lineRef == "" then attribution else attribution + "\n\n" + lineRef) + "\n\n" + str
  }

  // ---------------------------------------------------------------------------
  // Alternations over dictionary keys

  /** The key whose alternative matches first: a regular expression tries `k1|k2|…` in order. */
  function FirstAlternative(keys: seq<string>, alt: string -> bool): (r: Option<nat>)
    ensures r.Some? ==> r.value < |keys| && alt(keys[r.value]) && forall j | 0 <= j < r.value :: !alt(keys[j])
    ensures r.None? ==> forall j | 0 <= j < |keys| :: !alt(keys[j])
  {
    if keys == [] then None
    else if alt(keys[0]) then Some(0)
    else
      match FirstAlternative(keys[1..], alt)
      case None => None
      case Some(j) => Some(j + 1)
  }

  /** `(?<=\W)` at `i` */
  predicate AfterNonWord(s: string, i: nat) {
    1 <= i <= |s| && !IsWordChar(s[i - 1])
  }

  // ---------------------------------------------------------------------------
  // User mentions: `@k1|@k2|…`

  /** The alternatives of `@k1|@k2|…` at `i`. */
  function MentionsAt(s: string, i: nat): string -> bool {
    k => OccursAt(s, "@" + k, i)
  }

  /** Where the first of `keys` mentioned at `i` is, or that none is. */
  lemma FirstMention(keys: seq<string>, s: string, i: nat)
    ensures FirstAlternative(keys, MentionsAt(s, i)).None? <==> forall k | k in keys :: !OccursAt(s, "@" + k, i)
    ensures FirstAlternative(keys, MentionsAt(s, i)).Some? ==>
      var j := FirstAlternative(keys, MentionsAt(s, i)).value;
      (forall l | 0 <= l < j :: !OccursAt(s, "@" + keys[l], i))
      && OccursAt(s, "@" + keys[j], i) && i < |s| && s[i] == '@'
  {
    match FirstAlternative(keys, MentionsAt(s, i))
    case None =>
      forall k | k in keys ensures !OccursAt(s, "@" + k, i) {
        var l :| 0 <= l < |keys| && keys[l] == k;
        assert !MentionsAt(s, i)(keys[l]);
      }
    case Some(j) =>
      assert MentionsAt(s, i)(keys[j]);
      assert forall l | 0 <= l < j :: !MentionsAt(s, i)(keys[l]);
      assert s[i] == s[i..i + 1 + |keys[j]|][0];
  }

  /** The usermap pass: `@key` becomes `@` followed by the mapped GitHub name. */
  function UserMentionAt(usermap: StrMap, s: string, i: nat): (r: Option<Match>)
    ensures r.Some? ==> i < |s| && s[i] == '@'
    ensures r.Some? ==> exists k | k in Keys(usermap) :: OccursAt(s, "@" + k, i) && r.value == Match(1 + |k|, "@" + Show(Lookup(usermap, k)))
    ensures r.Some? ==> exists j | 0 <= j < |Keys(usermap)| ::
      (forall l | 0 <= l < j :: !OccursAt(s, "@" + Keys(usermap)[l], i))
      && OccursAt(s, "@" + Keys(usermap)[j], i)
      && r.value == Match(1 + |Keys(usermap)[j]|, "@" + Show(Lookup(usermap, Keys(usermap)[j])))
    ensures r.None? <==> forall k | k in Keys(usermap) :: !OccursAt(s, "@" + k, i)
  {
    var keys := Keys(usermap);
    FirstMention(keys, s, i);
    match FirstAlternative(keys, MentionsAt(s, i))
    case None => None
    case Some(j) =>
      assert keys[j] in keys;
      Some(Match(1 + |keys[j]|, "@" + Show(Lookup(usermap, keys[j]))))
  }

  function UserMentions(usermap: StrMap): Matcher {
    (s: string, i: nat) => UserMentionAt(usermap, s, i)
  }

  /** What `@key` of an inactive user becomes: prepend, mapped name, the old name in parentheses. */
  function InactiveName(inactive: InactiveUserSettings, key: string): string {
    Show(inactive.prepend) + Show(Lookup(inactive.inactiveUserMap, key)) + " (" + key + ")"
  }

  /** The inactive-user pass: `@key` becomes the key's inactive name. */
  function InactiveMentionAt(inactive: InactiveUserSettings, s: string, i: nat): (r: Option<Match>)
    ensures r.Some? ==> i < |s| && s[i] == '@'
    ensures r.Some? ==> exists k | k in Keys(inactive.inactiveUserMap) ::
      OccursAt(s, "@" + k, i) && r.value == Match(1 + |k|, InactiveName(inactive, k))
    ensures r.Some? ==> var keys := Keys(inactive.inactiveUserMap);
      exists j | 0 <= j < |keys| ::
        (forall l | 0 <= l < j :: !OccursAt(s, "@" + keys[l], i))
        && OccursAt(s, "@" + keys[j], i)
        && r.value == Match(1 + |keys[j]|, InactiveName(inactive, keys[j]))
    ensures r.None? <==> forall k | k in Keys(inactive.inactiveUserMap) :: !OccursAt(s, "@" + k, i)
  {
    var keys := Keys(inactive.inactiveUserMap);
    FirstMention(keys, s, i);
    match FirstAlternative(keys, MentionsAt(s, i))
    case None => None
    case Some(j) =>
      assert keys[j] in keys;
      Some(Match(1 + |keys[j]|, InactiveName(inactive, keys[j])))
  }

  function InactiveMentions(inactive: InactiveUserSettings): Matcher {
    (s: string, i: nat) => InactiveMentionAt(inactive, s, i)
  }

  // ---------------------------------------------------------------------------
  // Issue references

  /** issueReplacer */
  function IssueReplacer(number: string): string {
    "#" + number
  }

  /** `(?<=\W)#(\d+)`, replaced through issueReplacer. */
  function IssueRefAt(s: string, i: nat): (r: Option<Match>)
    ensures r.Some? ==> i < |s| && s[i] == '#'
  {
    if AfterNonWord(s, i) && i + 1 < |s| && s[i] == '#' && IsDigit(s[i + 1]) then
      var n := DigitRun(s, i + 1);
      Some(Match(1 + n, IssueReplacer(s[i + 1..i + 1 + n])))
    else None
  }

  function IssueRefs(): Matcher {
    (s: string, i: nat) => IssueRefAt(s, i)
  }

  /** The local issue-reference pass gives back every reference unchanged: issue numbers are kept. */
  lemma IssueRefPassKeepsText(s: string)
    ensures ReplaceAll(IssueRefs(), s) == s
  {
    forall k | 0 <= k < |s|
      ensures EchoesAt(IssueRefs(), s, k)
    {
      if Fires(IssueRefs(), s, k) {
        var n := DigitRun(s, k + 1);
        assert s[k..k + 1 + n] == [s[k]] + s[k + 1..k + 1 + n];
      }
    }
    ScanEcho(IssueRefs(), s, 0);
  }

  /** `key` followed by `sep` and at least one digit, at `i`. */
  predicate KeyRefAt(s: string, i: nat, key: string, sep: char) {
    OccursAt(s, key + [sep], i) && i + |key| + 1 < |s| && IsDigit(s[i + |key| + 1])
  }

  /** The alternatives of `(k1)#(\d+)|(k2)#(\d+)|…` at `i`. */
  function KeyRefs(s: string, i: nat, sep: char): string -> bool {
    k => KeyRefAt(s, i, k, sep)
  }

  /**
   * `(k1)#(\d+)|(k2)#(\d+)|…` replaced by `projectmap[p1] + '#' + issueReplacer(p2)`.
   * The callback reads only the first two groups, so the text they capture is
   * the first key's; for any later key both are undefined.
   */
  function ProjectIssueRefAt(projectmap: StrMap, s: string, i: nat): (r: Option<Match>)
    ensures r.Some? ==> i + 1 < |s|
  {
    var keys := Keys(projectmap);
    match FirstAlternative(keys, KeyRefs(s, i, '#'))
    case None => None
    case Some(j) =>
      var d := i + |keys[j]| + 1;
      var n := DigitRun(s, d);
      var replacement :=
        if j == 0 then Show(Lookup(projectmap, keys[0])) + "#" + IssueReplacer(s[d..d + n])
        else Show(Lookup(projectmap, "undefined")) + "#" + IssueReplacer("undefined");
      Some(Match(|keys[j]| + 1 + n, replacement))
  }

  /** The cross-project pattern fires exactly where some mapped key is followed by '#' and a digit. */
  lemma ProjectIssueRefAtSpec(projectmap: StrMap, s: string, i: nat)
    ensures ProjectIssueRefAt(projectmap, s, i).Some? <==> exists k | k in Keys(projectmap) :: KeyRefAt(s, i, k, '#')
  {
    var keys := Keys(projectmap);
    match FirstAlternative(keys, KeyRefs(s, i, '#'))
    case None =>
      forall k | k in keys ensures !KeyRefAt(s, i, k, '#') {
        var j :| 0 <= j < |keys| && keys[j] == k;
        assert !KeyRefs(s, i, '#')(keys[j]);
      }
    case Some(j) =>
      assert KeyRefs(s, i, '#')(keys[j]);
  }

  function ProjectIssueRefs(projectmap: StrMap): Matcher {
    (s: string, i: nat) => ProjectIssueRefAt(projectmap, s, i)
  }

  /** The evidently intended cross-project rewrite: the matched key's project, one '#', the number. */
  function ProjectIssueRefAtIntended(projectmap: StrMap, s: string, i: nat): (r: Option<Match>)
    ensures r.Some? <==> exists k | k in Keys(projectmap) :: KeyRefAt(s, i, k, '#')
  {
    var keys := Keys(projectmap);
    match FirstAlternative(keys, KeyRefs(s, i, '#'))
    case None => None
    case Some(j) =>
      var d := i + |keys[j]| + 1;
      var n := DigitRun(s, d);
      Some(Match(|keys[j]| + 1 + n, Show(Lookup(projectmap, keys[j])) + "#" + s[d..d + n]))
  }

  function ProjectIssueRefsIntended(projectmap: StrMap): Matcher {
    (s: string, i: nat) => ProjectIssueRefAtIntended(projectmap, s, i)
  }

  /** A run of digits reaching the end of the text is matched whole by `\d+`. */
  lemma DigitRunToEnd(s: string, i: nat)
    requires i <= |s|
    requires forall k | i <= k < |s| :: IsDigit(s[k])
    ensures DigitRun(s, i) == |s| - i
  {
  }

  /** The text `key`, separator, `number`, and where its number starts. */
  lemma KeyRefText(key: string, sep: char, number: string)
    requires number != [] && forall c | c in number :: IsDigit(c)
    ensures KeyRefAt(key + [sep] + number, 0, key, sep)
    ensures DigitRun(key + [sep] + number, |key| + 1) == |number|
    ensures (key + [sep] + number)[|key| + 1..] == number
    ensures (key + [sep] + number)[|key| + 1..|key| + 1 + |number|] == number
  {
    var s := key + [sep] + number;
    var d := |key| + 1;
    assert s[0..d] == key + [sep];
    assert s[d..] == number;
    forall k | d <= k < |s| ensures IsDigit(s[k]) {
      assert s[k] == number[k - d];
      assert number[k - d] in number;
    }
    DigitRunToEnd(s, d);
  }

  /** A single key is the first alternative that matches `key`, separator, `number`. */
  lemma OnlyKeyMatches(key: string, sep: char, number: string)
    requires number != [] && forall c | c in number :: IsDigit(c)
    ensures FirstAlternative([key], KeyRefs(key + [sep] + number, 0, sep)) == Some(0)
    ensures DigitRun(key + [sep] + number, |key| + 1) == |number|
    ensures (key + [sep] + number)[|key| + 1..|key| + 1 + |number|] == number
  {
    KeyRefText(key, sep, number);
    assert KeyRefs(key + [sep] + number, 0, sep)(key);
  }

  /**
   * As written, a reference to a mapped project gets two '#': `key#n` becomes
   * `target##n`, because the callback adds a '#' in front of issueReplacer's.
   */
  lemma ProjectRefDoubleHash(key: string, target: string, number: string)
    requires number != [] && forall c | c in number :: IsDigit(c)
    ensures ReplaceAll(ProjectIssueRefs([(key, target)]), key + "#" + number) == target + "##" + number
  {
    ProjectRefDoubleHashAt(key, target, number);
    ScanWhole(ProjectIssueRefs([(key, target)]), key + "#" + number, target + "##" + number);
  }

  /** The as-written callback's replacement for the whole of `key#number`. */
  lemma ProjectRefDoubleHashAt(key: string, target: string, number: string)
    requires number != [] && forall c | c in number :: IsDigit(c)
    ensures ProjectIssueRefAt([(key, target)], key + "#" + number, 0)
         == Some(Match(|key + "#" + number|, target + "##" + number))
  {
    var s := key + "#" + number;
    var pm := [(key, target)];
    OnlyKeyMatches(key, '#', number);
    assert Keys(pm) == [key];
    assert Lookup(pm, key) == Some(target);
    var rep := Show(Lookup(pm, key)) + "#" + IssueReplacer(number);
    assert rep == target + "##" + number;
    assert |key| + 1 + |number| == |s|;
  }

  /** The intended rewrite turns `key#n` into `target#n`. */
  lemma ProjectRefSingleHash(key: string, target: string, number: string)
    requires number != [] && forall c | c in number :: IsDigit(c)
    ensures ReplaceAll(ProjectIssueRefsIntended([(key, target)]), key + "#" + number) == target + "#" + number
  {
    var s := key + "#" + number;
    var pm := [(key, target)];
    OnlyKeyMatches(key, '#', number);
    assert Keys(pm) == [key];
    assert Lookup(pm, key) == Some(target);
    assert ProjectIssueRefAtIntended(pm, s, 0) == Some(Match(|s|, target + "#" + number));
    ScanWhole(ProjectIssueRefsIntended(pm), s, target + "#" + number);
  }

  /** The second of two keys is the first alternative that matches `b`, separator, `number`. */
  lemma SecondKeyMatches(a: string, b: string, sep: char, number: string)
    requires number != [] && forall c | c in number :: IsDigit(c)
    requires !OccursAt(b + [sep] + number, a + [sep], 0)
    ensures FirstAlternative([a, b], KeyRefs(b + [sep] + number, 0, sep)) == Some(1)
    ensures DigitRun(b + [sep] + number, |b| + 1) == |number|
    ensures (b + [sep] + number)[|b| + 1..|b| + 1 + |number|] == number
  {
    var s := b + [sep] + number;
    KeyRefText(b, sep, number);
    assert !KeyRefs(s, 0, sep)(a);
    assert KeyRefs(s, 0, sep)(b);
    assert [a, b][1..] == [b];
    assert FirstAlternative([b], KeyRefs(s, 0, sep)) == Some(0);
  }

  /**
   * As written, a reference to the second mapped project reads groups the
   * second alternative does not set: it becomes `undefined##undefined`.
   */
  lemma LaterProjectKeyUndefined(a: string, x: string, b: string, y: string, number: string)
    requires number != [] && forall c | c in number :: IsDigit(c)
    requires a != "undefined" && b != "undefined"
    requires !OccursAt(b + "#" + number, a + "#", 0)
    ensures ReplaceAll(ProjectIssueRefs([(a, x), (b, y)]), b + "#" + number) == "undefined##undefined"
  {
    var s := b + "#" + number;
    var pm := [(a, x), (b, y)];
    SecondKeyMatches(a, b, '#', number);
    assert Keys(pm) == [a, b];
    assert Lookup(pm, "undefined") == None;
    assert Show(Lookup(pm, "undefined")) + "#" + IssueReplacer("undefined") == "undefined##undefined";
    assert ProjectIssueRefAt(pm, s, 0) == Some(Match(|s|, "undefined##undefined"));
    ScanWhole(ProjectIssueRefs(pm), s, "undefined##undefined");
  }

  /** The intended rewrite maps a reference to the second project to that project. */
  lemma LaterProjectKeyIntended(a: string, x: string, b: string, y: string, number: string)
    requires number != [] && forall c | c in number :: IsDigit(c)
    requires a != b
    requires !OccursAt(b + "#" + number, a + "#", 0)
    ensures ReplaceAll(ProjectIssueRefsIntended([(a, x), (b, y)]), b + "#" + number) == y + "#" + number
  {
    var s := b + "#" + number;
    var pm := [(a, x), (b, y)];
    SecondKeyMatches(a, b, '#', number);
    assert Keys(pm) == [a, b];
    assert Lookup(pm, b) == Some(y);
    assert ProjectIssueRefAtIntended(pm, s, 0) == Some(Match(|s|, y + "#" + number));
    ScanWhole(ProjectIssueRefsIntended(pm), s, y + "#" + number);
  }

  // ---------------------------------------------------------------------------
  // Milestone references

  /** Index of the closing '"' of a lazy `".*?"` whose body starts at `from`. */
  function ClosingQuote(s: string, from: nat): (r: Option<nat>)
    ensures r.Some? ==> from <= r.value < |s| && s[r.value] == '"'
    ensures r.Some? ==> forall k | from <= k < r.value :: s[k] != '"' && !IsLineTerminator(s[k])
    decreases |s| - from
  {
    if from >= |s| then None
    else if s[from] == '"' then Some(from)
    else if IsLineTerminator(s[from]) then None
    else ClosingQuote(s, from + 1)
  }

  /** `key%"title"` at `i`, with the title on one line. */
  predicate KeyTitleRefAt(s: string, i: nat, key: string) {
    OccursAt(s, key + "%\"", i) && ClosingQuote(s, i + |key| + 2).Some?
  }

  /** The alternatives of `(k1)%(".*?")|(k2)%(".*?")|…` at `i`. */
  function KeyTitleRefs(s: string, i: nat): string -> bool {
    k => KeyTitleRefAt(s, i, k)
  }

  /** Where the first of `keys` followed by `%"title"` at `i` is, or that none is. */
  lemma FirstKeyTitleRef(keys: seq<string>, s: string, i: nat)
    ensures FirstAlternative(keys, KeyTitleRefs(s, i)).None? <==> forall k | k in keys :: !KeyTitleRefAt(s, i, k)
    ensures FirstAlternative(keys, KeyTitleRefs(s, i)).Some? ==>
      var j := FirstAlternative(keys, KeyTitleRefs(s, i)).value;
      (forall l | 0 <= l < j :: !KeyTitleRefAt(s, i, keys[l])) && KeyTitleRefAt(s, i, keys[j])
  {
    match FirstAlternative(keys, KeyTitleRefs(s, i))
    case None =>
      forall k | k in keys ensures !KeyTitleRefAt(s, i, k) {
        var l :| 0 <= l < |keys| && keys[l] == k;
        assert !KeyTitleRefs(s, i)(keys[l]);
      }
    case Some(j) =>
      assert KeyTitleRefs(s, i)(keys[j]);
      assert forall l | 0 <= l < j :: !KeyTitleRefs(s, i)(keys[l]);
  }

  /** Where the first of `keys` followed by `sep` and a digit at `i` is, or that none is. */
  lemma FirstKeyRef(keys: seq<string>, s: string, i: nat, sep: char)
    ensures FirstAlternative(keys, KeyRefs(s, i, sep)).None? <==> forall k | k in keys :: !KeyRefAt(s, i, k, sep)
    ensures FirstAlternative(keys, KeyRefs(s, i, sep)).Some? ==>
      var j := FirstAlternative(keys, KeyRefs(s, i, sep)).value;
      (forall l | 0 <= l < j :: !KeyRefAt(s, i, keys[l], sep)) && KeyRefAt(s, i, keys[j], sep)
  {
    match FirstAlternative(keys, KeyRefs(s, i, sep))
    case None =>
      forall k | k in keys ensures !KeyRefAt(s, i, k, sep) {
        var l :| 0 <= l < |keys| && keys[l] == k;
        assert !KeyRefs(s, i, sep)(keys[l]);
      }
    case Some(j) =>
      assert KeyRefs(s, i, sep)(keys[j]);
      assert forall l | 0 <= l < j :: !KeyRefs(s, i, sep)(keys[l]);
  }

  /** Where `key%"title"` at `i` ends: just past its closing quote. */
  function TitleRefEnd(s: string, i: nat, key: string): (e: nat)
    requires KeyTitleRefAt(s, i, key)
    ensures i + |key| + 2 < e <= |s|
  {
    ClosingQuote(s, i + |key| + 2).value + 1
  }

  /** What `key%"title"` becomes when the callback sees the key: the quoted title and the key's project. */
  function TitleRefReplacement(projectmap: StrMap, s: string, i: nat, key: string): string
    requires KeyTitleRefAt(s, i, key)
  {
    "Milestone " + s[i + |key| + 1..TitleRefEnd(s, i, key)] + " in " + Show(Lookup(projectmap, key))
  }

  /**
   * What the title callback makes of a match of the `j`th key. It reads only
   * the first two groups, which only the first key's alternative sets: for
   * any later key both are `undefined`.
   */
  function CallbackTitleReplacement(projectmap: StrMap, s: string, i: nat, j: nat): (t: string)
    requires j < |Keys(projectmap)| && KeyTitleRefAt(s, i, Keys(projectmap)[j])
    ensures StartsWith(t, "Milestone ")
  {
    if j == 0 then TitleRefReplacement(projectmap, s, i, Keys(projectmap)[0])
    else "Milestone undefined in " + Show(Lookup(projectmap, "undefined"))
  }

  /** `(k1)%(".*?")|…` replaced by `Milestone ${p2} in ${projectmap[p1]}`; p2 keeps the quotes. */
  function ProjectMilestoneTitleAt(projectmap: StrMap, s: string, i: nat): (r: Option<Match>)
    ensures r.Some? <==> exists k | k in Keys(projectmap) :: KeyTitleRefAt(s, i, k)
    ensures r.Some? ==> StartsWith(r.value.replacement, "Milestone ")
    ensures r.Some? ==> var keys := Keys(projectmap);
      exists j | 0 <= j < |keys| ::
        (forall l | 0 <= l < j :: !KeyTitleRefAt(s, i, keys[l]))
        && KeyTitleRefAt(s, i, keys[j])
        && r.value == Match(TitleRefEnd(s, i, keys[j]) - i, CallbackTitleReplacement(projectmap, s, i, j))
  {
    var keys := Keys(projectmap);
    FirstKeyTitleRef(keys, s, i);
    match FirstAlternative(keys, KeyTitleRefs(s, i))
    case None => None
    case Some(j) =>
      assert keys[j] in keys;
      Some(Match(TitleRefEnd(s, i, keys[j]) - i, CallbackTitleReplacement(projectmap, s, i, j)))
  }

  function ProjectMilestoneTitles(projectmap: StrMap): Matcher {
    (s: string, i: nat) => ProjectMilestoneTitleAt(projectmap, s, i)
  }

  /** The evidently intended title rewrite: the matched key's quoted title and project. */
  function ProjectMilestoneTitleAtIntended(projectmap: StrMap, s: string, i: nat): (r: Option<Match>)
    ensures r.Some? <==> exists k | k in Keys(projectmap) :: KeyTitleRefAt(s, i, k)
    ensures r.Some? ==> var keys := Keys(projectmap);
      exists j | 0 <= j < |keys| ::
        (forall l | 0 <= l < j :: !KeyTitleRefAt(s, i, keys[l]))
        && KeyTitleRefAt(s, i, keys[j])
        && r.value == Match(TitleRefEnd(s, i, keys[j]) - i, TitleRefReplacement(projectmap, s, i, keys[j]))
  {
    var keys := Keys(projectmap);
    FirstKeyTitleRef(keys, s, i);
    match FirstAlternative(keys, KeyTitleRefs(s, i))
    case None => None
    case Some(j) =>
      assert keys[j] in keys;
      Some(Match(TitleRefEnd(s, i, keys[j]) - i, TitleRefReplacement(projectmap, s, i, keys[j])))
  }

  function ProjectMilestoneTitlesIntended(projectmap: StrMap): Matcher {
    (s: string, i: nat) => ProjectMilestoneTitleAtIntended(projectmap, s, i)
  }

  /** A link to milestone `number` of GitHub project `project`, in the form the number pass writes. */
  function MilestoneLink(number: string, project: string, githubUrl: string, owner: string): (r: string)
    ensures StartsWith(r, "[Milestone ")
  {
    var tail := number + " in " + project + "](" + githubUrl + "/" + owner + "/" + project + ")";
    ConcatAffixes("[Milestone ", tail);
    "[Milestone " + tail
  }

  /** The digits after `key%` at `i`. */
  function KeyRefNumber(s: string, i: nat, key: string): string
    requires KeyRefAt(s, i, key, '%')
  {
    var d := i + |key| + 1;
    s[d..d + DigitRun(s, d)]
  }

  /** What `key%number` becomes when the callback sees the key: a link to the key's project. */
  function NumberRefReplacement(projectmap: StrMap, githubUrl: string, owner: string, s: string, i: nat, key: string): string
    requires KeyRefAt(s, i, key, '%')
  {
    MilestoneLink(KeyRefNumber(s, i, key), Show(Lookup(projectmap, key)), githubUrl, owner)
  }

  /**
   * What the number callback makes of a match of the `j`th key. It reads only
   * the first two groups: for any later key the number and the project are
   * both `undefined`.
   */
  function CallbackNumberReplacement(projectmap: StrMap, githubUrl: string, owner: string, s: string, i: nat, j: nat): (t: string)
    requires j < |Keys(projectmap)| && KeyRefAt(s, i, Keys(projectmap)[j], '%')
    ensures StartsWith(t, "[Milestone ")
  {
    if j == 0 then NumberRefReplacement(projectmap, githubUrl, owner, s, i, Keys(projectmap)[0])
    else MilestoneLink("undefined", Show(Lookup(projectmap, "undefined")), githubUrl, owner)
  }

  /** `(k1)%(\d+)|…` replaced by a link to the mapped project. */
  function ProjectMilestoneNumberAt(projectmap: StrMap, githubUrl: string, owner: string, s: string, i: nat): (r: Option<Match>)
    ensures r.Some? <==> exists k | k in Keys(projectmap) :: KeyRefAt(s, i, k, '%')
    ensures r.Some? ==> StartsWith(r.value.replacement, "[Milestone ")
    ensures r.Some? ==> var keys := Keys(projectmap);
      exists j | 0 <= j < |keys| ::
        (forall l | 0 <= l < j :: !KeyRefAt(s, i, keys[l], '%'))
        && KeyRefAt(s, i, keys[j], '%')
        && r.value == Match(|keys[j]| + 1 + |KeyRefNumber(s, i, keys[j])|, CallbackNumberReplacement(projectmap, githubUrl, owner, s, i, j))
  {
    var keys := Keys(projectmap);
    FirstKeyRef(keys, s, i, '%');
    match FirstAlternative(keys, KeyRefs(s, i, '%'))
    case None => None
    case Some(j) =>
      assert keys[j] in keys;
      Some(Match(|keys[j]| + 1 + |KeyRefNumber(s, i, keys[j])|, CallbackNumberReplacement(projectmap, githubUrl, owner, s, i, j)))
  }

  function ProjectMilestoneNumbers(projectmap: StrMap, githubUrl: string, owner: string): Matcher {
    (s: string, i: nat) => ProjectMilestoneNumberAt(projectmap, githubUrl, owner, s, i)
  }

  /** The evidently intended number rewrite: the matched key's number and project. */
  function ProjectMilestoneNumberAtIntended(projectmap: StrMap, githubUrl: string, owner: string, s: string, i: nat): (r: Option<Match>)
    ensures r.Some? <==> exists k | k in Keys(projectmap) :: KeyRefAt(s, i, k, '%')
    ensures r.Some? ==> var keys := Keys(projectmap);
      exists j | 0 <= j < |keys| ::
        (forall l | 0 <= l < j :: !KeyRefAt(s, i, keys[l], '%'))
        && KeyRefAt(s, i, keys[j], '%')
        && r.value == Match(|keys[j]| + 1 + |KeyRefNumber(s, i, keys[j])|, NumberRefReplacement(projectmap, githubUrl, owner, s, i, keys[j]))
  {
    var keys := Keys(projectmap);
    FirstKeyRef(keys, s, i, '%');
    match FirstAlternative(keys, KeyRefs(s, i, '%'))
    case None => None
    case Some(j) =>
      assert keys[j] in keys;
      Some(Match(|keys[j]| + 1 + |KeyRefNumber(s, i, keys[j])|, NumberRefReplacement(projectmap, githubUrl, owner, s, i, keys[j])))
  }

  function ProjectMilestoneNumbersIntended(projectmap: StrMap, githubUrl: string, owner: string): Matcher {
    (s: string, i: nat) => ProjectMilestoneNumberAtIntended(projectmap, githubUrl, owner, s, i)
  }

  /** An alternative that fires, with none before it firing, is the first. */
  lemma FirstAlternativeIs(keys: seq<string>, alt: string -> bool, j: nat)
    requires j < |keys| && alt(keys[j])
    requires forall l | 0 <= l < j :: !alt(keys[l])
    ensures FirstAlternative(keys, alt) == Some(j)
  {
    if j > 0 {
      assert !alt(keys[0]);
      forall l | 0 <= l < j - 1 ensures !alt(keys[1..][l]) {
        assert keys[1..][l] == keys[l + 1];
      }
      FirstAlternativeIs(keys[1..], alt, j - 1);
    }
  }

  /** The as-written title pass at `i`, once the first matching key is known. */
  lemma ProjectMilestoneTitleAtFirst(projectmap: StrMap, s: string, i: nat, j: nat)
    requires j < |Keys(projectmap)| && KeyTitleRefAt(s, i, Keys(projectmap)[j])
    requires forall l | 0 <= l < j :: !KeyTitleRefAt(s, i, Keys(projectmap)[l])
    ensures var r := ProjectMilestoneTitleAt(projectmap, s, i);
      r.Some? && r.value.len == TitleRefEnd(s, i, Keys(projectmap)[j]) - i
      && r.value.replacement == CallbackTitleReplacement(projectmap, s, i, j)
  {
    var keys := Keys(projectmap);
    forall l | 0 <= l < j ensures !KeyTitleRefs(s, i)(keys[l]) {
    }
    assert KeyTitleRefs(s, i)(keys[j]);
    FirstAlternativeIs(keys, KeyTitleRefs(s, i), j);
  }

  /** The corrected title pass at `i`, once the first matching key is known. */
  lemma ProjectMilestoneTitleAtIntendedFirst(projectmap: StrMap, s: string, i: nat, j: nat)
    requires j < |Keys(projectmap)| && KeyTitleRefAt(s, i, Keys(projectmap)[j])
    requires forall l | 0 <= l < j :: !KeyTitleRefAt(s, i, Keys(projectmap)[l])
    ensures var r := ProjectMilestoneTitleAtIntended(projectmap, s, i);
      r.Some? && r.value.len == TitleRefEnd(s, i, Keys(projectmap)[j]) - i
      && r.value.replacement == TitleRefReplacement(projectmap, s, i, Keys(projectmap)[j])
  {
    var keys := Keys(projectmap);
    forall l | 0 <= l < j ensures !KeyTitleRefs(s, i)(keys[l]) {
    }
    assert KeyTitleRefs(s, i)(keys[j]);
    FirstAlternativeIs(keys, KeyTitleRefs(s, i), j);
  }

  /** The as-written number pass at `i`, once the first matching key is known. */
  lemma ProjectMilestoneNumberAtFirst(projectmap: StrMap, githubUrl: string, owner: string, s: string, i: nat, j: nat)
    requires j < |Keys(projectmap)| && KeyRefAt(s, i, Keys(projectmap)[j], '%')
    requires forall l | 0 <= l < j :: !KeyRefAt(s, i, Keys(projectmap)[l], '%')
    ensures var r := ProjectMilestoneNumberAt(projectmap, githubUrl, owner, s, i);
      r.Some? && r.value.len == |Keys(projectmap)[j]| + 1 + |KeyRefNumber(s, i, Keys(projectmap)[j])|
      && r.value.replacement == CallbackNumberReplacement(projectmap, githubUrl, owner, s, i, j)
  {
    var keys := Keys(projectmap);
    forall l | 0 <= l < j ensures !KeyRefs(s, i, '%')(keys[l]) {
    }
    assert KeyRefs(s, i, '%')(keys[j]);
    FirstAlternativeIs(keys, KeyRefs(s, i, '%'), j);
  }

  /** The corrected number pass at `i`, once the first matching key is known. */
  lemma ProjectMilestoneNumberAtIntendedFirst(projectmap: StrMap, githubUrl: string, owner: string, s: string, i: nat, j: nat)
    requires j < |Keys(projectmap)| && KeyRefAt(s, i, Keys(projectmap)[j], '%')
    requires forall l | 0 <= l < j :: !KeyRefAt(s, i, Keys(projectmap)[l], '%')
    ensures var r := ProjectMilestoneNumberAtIntended(projectmap, githubUrl, owner, s, i);
      r.Some? && r.value.len == |Keys(projectmap)[j]| + 1 + |KeyRefNumber(s, i, Keys(projectmap)[j])|
      && r.value.replacement == NumberRefReplacement(projectmap, githubUrl, owner, s, i, Keys(projectmap)[j])
  {
    var keys := Keys(projectmap);
    forall l | 0 <= l < j ensures !KeyRefs(s, i, '%')(keys[l]) {
    }
    assert KeyRefs(s, i, '%')(keys[j]);
    FirstAlternativeIs(keys, KeyRefs(s, i, '%'), j);
  }

  /** The closing quote is the first '"' after `from`, with no line end before it. */
  lemma ClosingQuoteAt(s: string, from: nat, q: nat)
    requires from <= q < |s| && s[q] == '"'
    requires forall k | from <= k < q :: s[k] != '"' && !IsLineTerminator(s[k])
    ensures ClosingQuote(s, from) == Some(q)
    decreases q - from
  {
    if from < q {
      ClosingQuoteAt(s, from + 1, q);
    }
  }

  /** A title `".*?"` matches whole: no quote and no line end inside it. */
  predicate OneLineTitle(title: string) {
    forall c | c in title :: c != '"' && !IsLineTerminator(c)
  }

  /** The text `key%"title"`, and where its quoted title is. */
  lemma KeyTitleText(key: string, title: string)
    requires OneLineTitle(title)
    ensures var s := key + "%\"" + title + "\"";
      KeyTitleRefAt(s, 0, key) && TitleRefEnd(s, 0, key) == |s| && s[|key| + 1..|s|] == "\"" + title + "\""
  {
    var s := key + "%\"" + title + "\"";
    var d := |key| + 2;
    assert s[0..d] == key + "%\"";
    forall k | d <= k < |s| - 1
      ensures s[k] != '"' && !IsLineTerminator(s[k])
    {
      assert s[k] == title[k - d];
      assert title[k - d] in title;
    }
    ClosingQuoteAt(s, d, |s| - 1);
  }

  /** As written, `key%"title"` with a single mapped key becomes `Milestone "title" in target`. */
  lemma ProjectMilestoneTitleFirstKey(key: string, target: string, title: string)
    requires OneLineTitle(title)
    ensures ReplaceAll(ProjectMilestoneTitles([(key, target)]), key + "%\"" + title + "\"")
         == "Milestone \"" + title + "\" in " + target
  {
    var s := key + "%\"" + title + "\"";
    var pm := [(key, target)];
    KeyTitleText(key, title);
    assert Keys(pm) == [key];
    assert Lookup(pm, key) == Some(target);
    var t := TitleRefReplacement(pm, s, 0, key);
    assert t == "Milestone " + ("\"" + title + "\"") + " in " + target;
    assert t == "Milestone \"" + title + "\" in " + target;
    ProjectMilestoneTitleAtFirst(pm, s, 0, 0);
    ScanWhole(ProjectMilestoneTitles(pm), s, "Milestone \"" + title + "\" in " + target);
  }

  /**
   * As written, a title reference to the second of two mapped keys reads
   * groups its alternative does not set: it becomes `Milestone undefined in undefined`.
   */
  lemma LaterProjectMilestoneTitleUndefined(a: string, x: string, b: string, y: string, title: string)
    requires OneLineTitle(title)
    requires a != "undefined" && b != "undefined"
    requires !OccursAt(b + "%\"" + title + "\"", a + "%\"", 0)
    ensures ReplaceAll(ProjectMilestoneTitles([(a, x), (b, y)]), b + "%\"" + title + "\"") == "Milestone undefined in undefined"
  {
    var s := b + "%\"" + title + "\"";
    var pm := [(a, x), (b, y)];
    KeyTitleText(b, title);
    assert Keys(pm) == [a, b];
    assert Lookup(pm, "undefined") == None;
    assert !KeyTitleRefAt(s, 0, a);
    assert CallbackTitleReplacement(pm, s, 0, 1) == "Milestone undefined in undefined";
    ProjectMilestoneTitleAtFirst(pm, s, 0, 1);
    ScanWhole(ProjectMilestoneTitles(pm), s, "Milestone undefined in undefined");
  }

  /** The intended title rewrite names the second project for a reference to the second key. */
  lemma LaterProjectMilestoneTitleIntended(a: string, x: string, b: string, y: string, title: string)
    requires OneLineTitle(title)
    requires a != b
    requires !OccursAt(b + "%\"" + title + "\"", a + "%\"", 0)
    ensures ReplaceAll(ProjectMilestoneTitlesIntended([(a, x), (b, y)]), b + "%\"" + title + "\"")
         == "Milestone \"" + title + "\" in " + y
  {
    var s := b + "%\"" + title + "\"";
    var pm := [(a, x), (b, y)];
    KeyTitleText(b, title);
    assert Keys(pm) == [a, b];
    assert Lookup(pm, b) == Some(y);
    assert !KeyTitleRefAt(s, 0, a);
    var t := TitleRefReplacement(pm, s, 0, b);
    assert t == "Milestone " + ("\"" + title + "\"") + " in " + y;
    assert t == "Milestone \"" + title + "\" in " + y;
    ProjectMilestoneTitleAtIntendedFirst(pm, s, 0, 1);
    ScanWhole(ProjectMilestoneTitlesIntended(pm), s, "Milestone \"" + title + "\" in " + y);
  }

  /** As written, `key%n` with a single mapped key becomes a link to milestone n of the target project. */
  lemma ProjectMilestoneNumberFirstKey(key: string, target: string, githubUrl: string, owner: string, number: string)
    requires number != [] && forall c | c in number :: IsDigit(c)
    ensures ReplaceAll(ProjectMilestoneNumbers([(key, target)], githubUrl, owner), key + "%" + number)
         == MilestoneLink(number, target, githubUrl, owner)
  {
    var s := key + "%" + number;
    var pm := [(key, target)];
    KeyRefText(key, '%', number);
    assert Keys(pm) == [key];
    assert Lookup(pm, key) == Some(target);
    assert KeyRefNumber(s, 0, key) == number;
    var link := MilestoneLink(number, target, githubUrl, owner);
    assert CallbackNumberReplacement(pm, githubUrl, owner, s, 0, 0) == link;
    ProjectMilestoneNumberAtFirst(pm, githubUrl, owner, s, 0, 0);
    ScanWhole(ProjectMilestoneNumbers(pm, githubUrl, owner), s, link);
  }

  /**
   * As written, a number reference to the second of two mapped keys becomes
   * a link to milestone `undefined` of project `undefined`.
   */
  lemma LaterProjectMilestoneNumberUndefined(a: string, x: string, b: string, y: string, githubUrl: string, owner: string, number: string)
    requires number != [] && forall c | c in number :: IsDigit(c)
    requires a != "undefined" && b != "undefined"
    requires !OccursAt(b + "%" + number, a + "%", 0)
    ensures ReplaceAll(ProjectMilestoneNumbers([(a, x), (b, y)], githubUrl, owner), b + "%" + number)
         == MilestoneLink("undefined", "undefined", githubUrl, owner)
  {
    var s := b + "%" + number;
    var pm := [(a, x), (b, y)];
    KeyRefText(b, '%', number);
    assert Keys(pm) == [a, b];
    assert Lookup(pm, "undefined") == None;
    assert !KeyRefAt(s, 0, a, '%');
    assert KeyRefNumber(s, 0, b) == number;
    var link := MilestoneLink("undefined", "undefined", githubUrl, owner);
    assert CallbackNumberReplacement(pm, githubUrl, owner, s, 0, 1) == link;
    ProjectMilestoneNumberAtFirst(pm, githubUrl, owner, s, 0, 1);
    ScanWhole(ProjectMilestoneNumbers(pm, githubUrl, owner), s, link);
  }

  /** The intended number rewrite links a reference to the second key to that key's project. */
  lemma LaterProjectMilestoneNumberIntended(a: string, x: string, b: string, y: string, githubUrl: string, owner: string, number: string)
    requires number != [] && forall c | c in number :: IsDigit(c)
    requires a != b
    requires !OccursAt(b + "%" + number, a + "%", 0)
    ensures ReplaceAll(ProjectMilestoneNumbersIntended([(a, x), (b, y)], githubUrl, owner), b + "%" + number)
         == MilestoneLink(number, y, githubUrl, owner)
  {
    var s := b + "%" + number;
    var pm := [(a, x), (b, y)];
    KeyRefText(b, '%', number);
    assert Keys(pm) == [a, b];
    assert Lookup(pm, b) == Some(y);
    assert !KeyRefAt(s, 0, a, '%');
    assert KeyRefNumber(s, 0, b) == number;
    var link := MilestoneLink(number, y, githubUrl, owner);
    assert NumberRefReplacement(pm, githubUrl, owner, s, 0, b) == link;
    ProjectMilestoneNumberAtIntendedFirst(pm, githubUrl, owner, s, 0, 1);
    ScanWhole(ProjectMilestoneNumbersIntended(pm, githubUrl, owner), s, link);
  }

  /** The milestone a local reference names: by number through `get`, by title through the first equal title. */
  function ReferencedMilestone(mm: Option<MilestoneMap>, number: string, title: string): Option<SimpleMilestone>
    requires forall c | c in number :: IsDigit(c)
  {
    if mm.None? then None
    else if number != "" then Lookup(mm.value, DigitsValue(number))
    else if title != "" then FirstWithTitle(mm.value, title)
    else None
  }

  /** milestoneReplacer */
  function MilestoneReplacer(mm: Option<MilestoneMap>, number: string, title: string, repoLink: string): (r: string)
    requires forall c | c in number :: IsDigit(c)
    ensures ReferencedMilestone(mm, number, title).Some? ==>
      var m := ReferencedMilestone(mm, number, title).value;
      r == "[" + m.title + "](" + repoLink + "/milestone/" + IntToString(m.number) + ")"
    ensures ReferencedMilestone(mm, number, title).None? <==> StartsWith(r, "'Reference to deleted milestone ")
    ensures ReferencedMilestone(mm, number, title).None? ==>
      r == "'Reference to deleted milestone " + (if number != "" then number else title) + "'"
  {
    var m := ReferencedMilestone(mm, number, title);
    if m.Some? then
      var r := "[" + m.value.title + "](" + repoLink + "/milestone/" + IntToString(m.value.number) + ")";
      assert r[0] == '[';
      assert !StartsWith(r, "'Reference to deleted milestone ") by {
        if StartsWith(r, "'Reference to deleted milestone ") {
          StartsWithFirstChar(r, "'Reference to deleted milestone ");
          assert false;
        }
      }
      r
    else
      "'Reference to deleted milestone " + (if number != "" then number else title) + "'"
  }

  /** `(?<=\W)%"(.*?)"` */
  function MilestoneTitleRefAt(mm: Option<MilestoneMap>, repoLink: string, s: string, i: nat): (r: Option<Match>)
    ensures r.Some? ==> i < |s| && s[i] == '%'
  {
    if AfterNonWord(s, i) && OccursAt(s, "%\"", i) && ClosingQuote(s, i + 2).Some? then
      var q := ClosingQuote(s, i + 2).value;
      assert s[i] == s[i..i + 2][0];
      Some(Match(q + 1 - i, MilestoneReplacer(mm, "", s[i + 2..q], repoLink)))
    else None
  }

  function MilestoneTitleRefs(mm: Option<MilestoneMap>, repoLink: string): Matcher {
    (s: string, i: nat) => MilestoneTitleRefAt(mm, repoLink, s, i)
  }

  /** `(?<=\W)%(\d+)` */
  function MilestoneNumberRefAt(mm: Option<MilestoneMap>, repoLink: string, s: string, i: nat): (r: Option<Match>)
    ensures r.Some? ==> i < |s| && s[i] == '%'
  {
    if AfterNonWord(s, i) && i + 1 < |s| && s[i] == '%' && IsDigit(s[i + 1]) then
      var n := DigitRun(s, i + 1);
      Some(Match(1 + n, MilestoneReplacer(mm, s[i + 1..i + 1 + n], "", repoLink)))
    else None
  }

  function MilestoneNumberRefs(mm: Option<MilestoneMap>, repoLink: string): Matcher {
    (s: string, i: nat) => MilestoneNumberRefAt(mm, repoLink, s, i)
  }
}
