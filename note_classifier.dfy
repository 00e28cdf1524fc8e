/**
 * Which GitLab notes are not migrated as comments: system notes that only
 * record an event (state, milestone, assignee and label changes, mentions,
 * edits) and notes matching a user-configured pattern.
 */
module NoteClassifier {
  import opened Strings

  /** No line terminator in `s[from..to]`: the stretch a regular-expression `.*` can cover. */
  predicate OnOneLine(s: string, from: nat, to: nat)
    requires from <= to <= |s|
  {
    forall k | from <= k < to :: !IsLineTerminator(s[k])
  }

  /** `.*t` matched from `from`: `t` starts later on the same line. */
  predicate DotStarThen(s: string, from: nat, t: string) {
    exists j | from <= j <= |s| :: OccursAt(s, t, j) && OnOneLine(s, from, j)
  }

  /**
   * Removes leading "re" repetitions: `^(re)*` followed by the rest of the
   * pattern. The result is what is left after the longest leading run of
   * "re": a suffix of `s` that does not itself start with "re", the part
   * removed being "re" repeated.
   */
  function StripRe(s: string): (r: string)
    ensures |r| <= |s| && (|s| - |r|) % 2 == 0 && r == s[|s| - |r|..]
    ensures !StartsWith(r, "re")
    ensures forall j | 0 <= j < (|s| - |r|) / 2 :: OccursAt(s, "re", 2 * j)
    decreases |s|
  {
    if StartsWith(s, "re") then
      var r := StripRe(s[2..]);
      StripReStep(s, r);
      r
    else s
  }

  /** One "re" in front of a stripped suffix is stripped too. */
  lemma StripReStep(s: string, r: string)
    requires StartsWith(s, "re")
    requires |r| <= |s| - 2 && (|s| - 2 - |r|) % 2 == 0 && r == s[2..][|s| - 2 - |r|..]
    requires forall j | 0 <= j < (|s| - 2 - |r|) / 2 :: OccursAt(s[2..], "re", 2 * j)
    ensures r == s[|s| - |r|..]
    ensures forall j | 0 <= j < (|s| - |r|) / 2 :: OccursAt(s, "re", 2 * j)
  {
    forall j | 0 <= j < (|s| - |r|) / 2 ensures OccursAt(s, "re", 2 * j) {
      if j > 0 {
        assert OccursAt(s[2..], "re", 2 * (j - 1));
        assert s[2..][2 * (j - 1)..2 * (j - 1) + 2] == s[2 * j..2 * j + 2];
      }
    }
  }

  /**
   * The fixed patterns of checkIfNoteCanBeSkipped, matched case-insensitively.
   * All of them are ASCII, so lower-casing ASCII letters of the body decides
   * them exactly as the `i` flag does.
   */
  predicate IsEventNote(body: string) {
    var s := ToLower(body);
    (Contains(s, "status changed to ") && !Contains(s, "status changed to closed by commit"))
    || StartsWith(s, "changed milestone to ")
    || StartsWith(s, "milestone changed to ")
    || StartsWith(StripRe(s), "assigned to ")
    || (StartsWith(s, "added ") && DotStarThen(s, 6, " labels"))
    || (StartsWith(s, "added ~") && DotStarThen(s, 7, " label"))
    || (StartsWith(s, "removed ~") && DotStarThen(s, 9, " label"))
    || (StartsWith(s, "mentioned in issue #") && 20 < |s| && IsDigit(s[20]))
    || (StartsWith(s, "mentioned in merge request !") && 28 < |s| && IsDigit(s[28]))
    || StartsWith(s, "changed the description")
    || (StartsWith(s, "changed title from") && DotStarThen(s, 18, "to"))
  }

  /** Some `settings.skipMatchingComments` pattern matches (the `reduce` with `||`). */
  predicate MatchesSkipPattern(patterns: seq<string>, regexTest: (string, string) -> bool, body: string) {
    exists p | p in patterns :: regexTest(p, body)
  }

  predicate CheckIfNoteCanBeSkipped(patterns: seq<string>, regexTest: (string, string) -> bool, body: string) {
    IsEventNote(body) || MatchesSkipPattern(patterns, regexTest, body)
  }

  /** The lower-cased body `s` begins with one of the anchored event prefixes. */
  predicate StartsEventPrefix(s: string) {
    StartsWith(s, "changed milestone to ")
    || StartsWith(s, "milestone changed to ")
    || StartsWith(StripRe(s), "assigned to ")
    || StartsWith(s, "added ")
    || StartsWith(s, "removed ~")
    || StartsWith(s, "mentioned in issue #")
    || StartsWith(s, "mentioned in merge request !")
    || StartsWith(s, "changed the description")
    || StartsWith(s, "changed title from")
  }

  /**
   * A note that, in any letter case, begins with none of the anchored event
   * prefixes, does not mention a status change and matches no user pattern,
   * is migrated: "reopened", "changed the labels" or "mentioned here" are.
   */
  lemma PlainNoteIsMigrated(patterns: seq<string>, regexTest: (string, string) -> bool, body: string)
    requires !StartsEventPrefix(ToLower(body))
    requires !Contains(ToLower(body), "status changed to ")
    requires !MatchesSkipPattern(patterns, regexTest, body)
    ensures !CheckIfNoteCanBeSkipped(patterns, regexTest, body)
  {
    var s := ToLower(body);
    if StartsWith(s, "added ~") {
      StartsWithTrans(s, "added ~", "added ");
    }
  }

  /**
   * In particular a note whose lower-cased first character is none of a, c,
   * m and r is migrated unless it mentions a status change or a user pattern
   * matches it.
   */
  lemma FirstLetterNoteIsMigrated(patterns: seq<string>, regexTest: (string, string) -> bool, body: string)
    requires |body| >= 1 && ToLower(body)[0] !in {'a', 'c', 'm', 'r'}
    requires !Contains(ToLower(body), "status changed to ")
    requires !MatchesSkipPattern(patterns, regexTest, body)
    ensures !CheckIfNoteCanBeSkipped(patterns, regexTest, body)
  {
    var s := ToLower(body);
    if StartsWith(s, "re") { StartsWithFirstChar(s, "re"); }
    assert StripRe(s) == s;
    if StartsWith(s, "changed milestone to ") { StartsWithFirstChar(s, "changed milestone to "); }
    if StartsWith(s, "milestone changed to ") { StartsWithFirstChar(s, "milestone changed to "); }
    if StartsWith(s, "assigned to ") { StartsWithFirstChar(s, "assigned to "); }
    if StartsWith(s, "added ") { StartsWithFirstChar(s, "added "); }
    if StartsWith(s, "removed ~") { StartsWithFirstChar(s, "removed ~"); }
    if StartsWith(s, "mentioned in issue #") { StartsWithFirstChar(s, "mentioned in issue #"); }
    if StartsWith(s, "mentioned in merge request !") { StartsWithFirstChar(s, "mentioned in merge request !"); }
    if StartsWith(s, "changed the description") { StartsWithFirstChar(s, "changed the description"); }
    if StartsWith(s, "changed title from") { StartsWithFirstChar(s, "changed title from"); }
    PlainNoteIsMigrated(patterns, regexTest, body);
  }

  /** "Status changed to closed by commit …" notes are kept, in any letter case. */
  lemma ClosedByCommitIsMigrated(patterns: seq<string>, regexTest: (string, string) -> bool, body: string)
    requires StartsWith(ToLower(body), "status changed to closed by commit")
    requires !MatchesSkipPattern(patterns, regexTest, body)
    ensures !CheckIfNoteCanBeSkipped(patterns, regexTest, body)
  {
    var s := ToLower(body);
    PrefixContained(s, "status changed to closed by commit");
    StartsWithFirstChar(s, "status changed to closed by commit");
    assert s[0] == 's';
    if StartsWith(s, "re") { StartsWithFirstChar(s, "re"); }
    assert StripRe(s) == s;
    if StartsWith(s, "changed milestone to ") { StartsWithFirstChar(s, "changed milestone to "); }
    if StartsWith(s, "milestone changed to ") { StartsWithFirstChar(s, "milestone changed to "); }
    if StartsWith(s, "assigned to ") { StartsWithFirstChar(s, "assigned to "); }
    if StartsWith(s, "added ") { StartsWithFirstChar(s, "added "); }
    if StartsWith(s, "added ~") { StartsWithFirstChar(s, "added ~"); }
    if StartsWith(s, "removed ~") { StartsWithFirstChar(s, "removed ~"); }
    if StartsWith(s, "mentioned in issue #") { StartsWithFirstChar(s, "mentioned in issue #"); }
    if StartsWith(s, "mentioned in merge request !") { StartsWithFirstChar(s, "mentioned in merge request !"); }
    if StartsWith(s, "changed the description") { StartsWithFirstChar(s, "changed the description"); }
    if StartsWith(s, "changed title from") { StartsWithFirstChar(s, "changed title from"); }
  }

  /** Any number of leading "re" before "assigned to " marks an assignment note. */
  lemma {:induction false} ReassignmentIsSkipped(body: string, k: nat)
    requires 2 * k <= |body| && StartsWith(ToLower(body)[2 * k..], "assigned to ")
    requires forall j | 0 <= j < k :: OccursAt(ToLower(body), "re", 2 * j)
    ensures IsEventNote(body)
  {
    var s := ToLower(body);
    StripReAfter(s, k);
  }

  lemma {:induction false} StripReAfter(s: string, k: nat)
    requires 2 * k <= |s| && StartsWith(s[2 * k..], "assigned to ")
    requires forall j | 0 <= j < k :: OccursAt(s, "re", 2 * j)
    ensures StripRe(s) == s[2 * k..]
    decreases k
  {
    if k == 0 {
      assert s[0..] == s;
      StartsWithFirstChar(s, "assigned to ");
      if StartsWith(s, "re") { StartsWithFirstChar(s, "re"); }
    } else {
      assert OccursAt(s, "re", 2 * 0);
      var t := s[2..];
      forall j | 0 <= j < k - 1
        ensures OccursAt(t, "re", 2 * j)
      {
        assert OccursAt(s, "re", 2 * (j + 1));
        assert t[2 * j..2 * j + 2] == s[2 * (j + 1)..2 * (j + 1) + 2];
      }
      assert t[2 * (k - 1)..] == s[2 * k..];
      StripReAfter(t, k - 1);
    }
  }

  // ---------------------------------------------------------------------------
  // The legacy script (index.js) filtered notes case-sensitively, with
  // unanchored patterns and fewer event kinds.

  /** `/a.*b/`: `a` occurs, then `b` later on the same line. */
  predicate ContainsThenOnLine(s: string, a: string, b: string) {
    exists j | 0 <= j <= |s| :: OccursAt(s, a, j) && DotStarThen(s, j + |a|, b)
  }

  predicate LegacyIsEventNote(body: string) {
    (Contains(body, "Status changed to ") && !Contains(body, "Status changed to closed by commit"))
    || Contains(body, "changed milestone to ")
    || Contains(body, "Milestone changed to ")
    || Contains(body, "Reassigned to ")
    || ContainsThenOnLine(body, "added ", " labels")
    || ContainsThenOnLine(body, "Added ~", " label")
    || Contains(body, "mentioned in issue")
  }

  /**
   * The two filters differ on letter case: the note "status changed to
   * reopened" is skipped by checkIfNoteCanBeSkipped and migrated by the
   * legacy filter.
   */
  lemma LowerCaseStatusNoteDiffers()
    ensures IsEventNote("status changed to reopened")
    ensures !LegacyIsEventNote("status changed to reopened")
  {
    StatusReopenedIsEvent();
    StatusReopenedNotLegacyEvent();
  }

  /**
   * The legacy patterns are not anchored: a note that only mentions an issue
   * further on is skipped by the legacy filter and migrated by the current one.
   */
  lemma UnanchoredMentionDiffers()
    ensures LegacyIsEventNote("see mentioned in issue #4")
    ensures !IsEventNote("see mentioned in issue #4")
  {
    MentionFurtherOnContained();
    MentionFurtherOnNotEvent();
  }

  /**
   * The legacy filter also keeps "Status changed to closed by commit": the
   * status pattern excludes it and no other legacy pattern occurs in it.
   */
  lemma LegacyClosedByCommitIsMigrated()
    ensures !LegacyIsEventNote("Status changed to closed by commit")
  {
    var b := "Status changed to closed by commit";
    assert OccursAt(b, "Status changed to closed by commit", 0);
    ClosedByCommitHasNoOtherEvent();
    ClosedByCommitHasNoLabelChange();
  }

  lemma ClosedByCommitHasNoOtherEvent()
    ensures !Contains("Status changed to closed by commit", "changed milestone to ")
    ensures !Contains("Status changed to closed by commit", "Milestone changed to ")
    ensures !Contains("Status changed to closed by commit", "Reassigned to ")
    ensures !Contains("Status changed to closed by commit", "mentioned in issue")
  {
    ClosedByCommitNoMilestoneChange();
    var b := "Status changed to closed by commit";
    assert 'M' !in b && 'R' !in b;
    MissingChar(b, "Milestone changed to ", 'M');
    MissingChar(b, "Reassigned to ", 'R');
    ClosedByCommitNoMention();
  }

  /** `changed milestone to ` would need its 'm' among "hanged to clos". */
  lemma ClosedByCommitNoMilestoneChange()
    ensures !Contains("Status changed to closed by commit", "changed milestone to ")
  {
    assert "Status changed to closed by commit" == "Status c" + "hanged to clos" + "ed by commit";
    NoOccurrenceAcross("Status c", "hanged to clos", "ed by commit", "changed milestone to ", 8);
  }

  /** `mentioned in issue` would need its 'm' among "Status changed to". */
  lemma ClosedByCommitNoMention()
    ensures !Contains("Status changed to closed by commit", "mentioned in issue")
  {
    assert "Status changed to closed by commit" == "" + "Status changed to" + " closed by commit";
    NoOccurrenceAcross("", "Status changed to", " closed by commit", "mentioned in issue", 0);
  }

  /** The only 'l' of the note is at 19, after a 'c' rather than a space. */
  lemma ClosedByCommitHasNoLabelChange()
    ensures !ContainsThenOnLine("Status changed to closed by commit", "added ", " labels")
    ensures !ContainsThenOnLine("Status changed to closed by commit", "Added ~", " label")
  {
    var b := "Status changed to closed by commit";
    ClosedByCommitNoSpaceL(" labels");
    ThenOnLineContains(b, "added ", " labels");
    ClosedByCommitNoSpaceL(" label");
    ThenOnLineContains(b, "Added ~", " label");
  }

  lemma ClosedByCommitNoSpaceL(t: string)
    requires |t| >= 2 && t[0] == ' ' && t[1] == 'l'
    ensures !Contains("Status changed to closed by commit", t)
  {
    NoSpaceLBefore(t);
    NoSpaceLAt(t);
    NoSpaceLAfter(t);
  }

  lemma NoSpaceLBefore(t: string)
    requires |t| >= 2 && t[1] == 'l'
    ensures forall i | 0 <= i < 18 :: !OccursAt("Status changed to closed by commit", t, i)
  {
    assert "Status changed to closed by commit" == "S" + "tatus changed to c" + "losed by commit";
    NoOccurrenceAcross("S", "tatus changed to c", "losed by commit", t, 1);
  }

  lemma NoSpaceLAt(t: string)
    requires |t| >= 2 && t[0] == ' '
    ensures !OccursAt("Status changed to closed by commit", t, 18)
  {
    assert "Status changed to closed by commit" == "Status changed to " + "c" + "losed by commit";
    NoOccurrenceAcross("Status changed to ", "c", "losed by commit", t, 0);
  }

  lemma NoSpaceLAfter(t: string)
    requires |t| >= 2 && t[1] == 'l'
    ensures forall i | 19 <= i <= 34 :: !OccursAt("Status changed to closed by commit", t, i)
  {
    assert "Status changed to closed by commit" == "Status changed to cl" + "osed by commit" + "";
    NoOccurrenceAcross("Status changed to cl", "osed by commit", "", t, 1);
  }

  /**
   * `t` does not occur in `x + y + z` where its `j`-th character would fall
   * into `y`, when that character is not in `y`.
   */
  lemma NoOccurrenceAcross(x: string, y: string, z: string, t: string, j: nat)
    requires j < |t| && j <= |x| && t[j] !in y
    ensures forall i | |x| - j <= i < |x| + |y| - j :: !OccursAt(x + y + z, t, i)
  {
    forall i | |x| - j <= i < |x| + |y| - j ensures !OccursAt(x + y + z, t, i) {
      if OccursAt(x + y + z, t, i) {
        OccursAtChars(x + y + z, t, i);
      }
    }
  }

  /** `/a.*t/` matching means that `t` occurs. */
  lemma ThenOnLineContains(s: string, a: string, t: string)
    ensures ContainsThenOnLine(s, a, t) ==> Contains(s, t)
  {
    if ContainsThenOnLine(s, a, t) {
      var j :| 0 <= j <= |s| && OccursAt(s, a, j) && DotStarThen(s, j + |a|, t);
      var k :| j + |a| <= k <= |s| && OccursAt(s, t, k) && OnOneLine(s, j + |a|, k);
      assert OccursAt(s, t, k);
    }
  }

  lemma MentionFurtherOnContained()
    ensures Contains("see mentioned in issue #4", "mentioned in issue")
  {
    var b := "see mentioned in issue #4";
    assert b[4..22] == "mentioned in issue";
    assert OccursAt(b, "mentioned in issue", 4);
  }

  lemma MentionFurtherOnNotEvent()
    ensures !IsEventNote("see mentioned in issue #4")
  {
    var b := "see mentioned in issue #4";
    assert forall c | c in b :: !IsAsciiUpper(c);
    LowerOfLower(b);
    assert 'h' !in b;
    MissingChar(b, "status changed to ", 'h');
    FirstLetterNoteIsMigrated([], (p: string, t: string) => false, b);
  }

  lemma StatusReopenedIsEvent()
    ensures IsEventNote("status changed to reopened")
  {
    var b := "status changed to reopened";
    assert forall c | c in b :: !IsAsciiUpper(c);
    LowerOfLower(b);
    assert OccursAt(b, "status changed to ", 0);
  }

  lemma LowerOfLower(s: string)
    requires forall c | c in s :: !IsAsciiUpper(c)
    ensures ToLower(s) == s
  {
    assert forall i | 0 <= i < |s| :: ToLower(s)[i] == s[i] by {
      forall i | 0 <= i < |s| ensures ToLower(s)[i] == s[i] { assert s[i] in s; }
    }
  }

  lemma StatusReopenedNotLegacyEvent()
    ensures !LegacyIsEventNote("status changed to reopened")
  {
    StatusReopenedIsLowerCase();
    StatusReopenedHasNoOtherEvent();
    StatusReopenedHasNoLabelChange();
  }

  lemma StatusReopenedIsLowerCase()
    ensures !Contains("status changed to reopened", "Status changed to ")
  {
    MissingChar("status changed to reopened", "Status changed to ", 'S');
  }

  lemma StatusReopenedHasNoOtherEvent()
    ensures !Contains("status changed to reopened", "changed milestone to ")
    ensures !Contains("status changed to reopened", "Milestone changed to ")
    ensures !Contains("status changed to reopened", "Reassigned to ")
    ensures !Contains("status changed to reopened", "mentioned in issue")
  {
    StatusReopenedHasNoI();
    MissingChar("status changed to reopened", "changed milestone to ", 'i');
    MissingChar("status changed to reopened", "mentioned in issue", 'i');
    StatusReopenedHasNoCapitals();
  }

  lemma StatusReopenedHasNoI()
    ensures 'i' !in "status changed to reopened"
  {
    assert "status changed to reopened" == "status " + "changed to " + "reopened";
  }

  lemma StatusReopenedHasNoCapitals()
    ensures !Contains("status changed to reopened", "Milestone changed to ")
    ensures !Contains("status changed to reopened", "Reassigned to ")
  {
    StatusReopenedIsLowerCase();
    assert "status changed to reopened"[0] == 's';
    MissingChar("status changed to reopened", "Milestone changed to ", 'M');
    MissingChar("status changed to reopened", "Reassigned to ", 'R');
  }

  lemma StatusReopenedHasNoLabelChange()
    ensures !ContainsThenOnLine("status changed to reopened", "added ", " labels")
    ensures !ContainsThenOnLine("status changed to reopened", "Added ~", " label")
  {
    MissingCharThenOnLine("status changed to reopened", "added ", " labels", 'l');
    MissingCharThenOnLine("status changed to reopened", "Added ~", " label", 'l');
  }

  lemma MissingChar(s: string, t: string, c: char)
    requires c in t && c !in s
    ensures !Contains(s, t)
  {
    if Contains(s, t) { CharsOfContained(s, t, c); }
  }

  lemma MissingCharThenOnLine(s: string, a: string, t: string, c: char)
    requires c in t && c !in s
    ensures !ContainsThenOnLine(s, a, t)
  {
    if ContainsThenOnLine(s, a, t) {
      var j :| 0 <= j <= |s| && OccursAt(s, a, j) && DotStarThen(s, j + |a|, t);
      var k :| j + |a| <= k <= |s| && OccursAt(s, t, k) && OnOneLine(s, j + |a|, k);
      assert OccursAt(s, t, k);
      CharsOfContained(s, t, c);
    }
  }
}
