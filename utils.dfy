/**
 * Attachment links and user lists (src/utils.ts).
 *
 * `migrateAttachments` finds every markdown link `(!?)[name](/uploads...)` in a
 * body, works out where the attachment now lives (an S3 bucket, an Azure
 * container, or the GitLab instance itself), records the new link text under
 * the offset of the match, and finally replaces every match by the text
 * recorded for its offset.
 */
module Utils {
  import opened Wrappers
  import opened Strings
  import opened Config
  import opened Scanner

  // ---------------------------------------------------------------------------
  // The link expression `(!?)\[([^\]]+)\]\((\/uploads[^)]+)\)`

  /** One match: its length and its three groups. */
  datatype Link = Link(len: nat, prefix: string, name: string, url: string)

  /** `${prefix}[${name}](${url})` */
  function LinkText(prefix: string, name: string, url: string): string {
    prefix + "[" + name + "](" + url + ")"
  }

  /** The groups of a match, as the expression constrains them. */
  predicate WellFormed(l: Link) {
    (l.prefix == "" || l.prefix == "!")
    && |l.name| >= 1 && ']' !in l.name
    && |l.url| > 8 && StartsWith(l.url, "/uploads") && ')' !in l.url
    && l.len == |LinkText(l.prefix, l.name, l.url)|
  }

  /** The match of the link expression that starts at `i`, if any. */
  function LinkAt(s: string, i: nat): Option<Link> {
    if i >= |s| then None
    else
      var a := if s[i] == '!' then i + 1 else i;
      if a >= |s| || s[a] != '[' then None
      else
        var b := IndexOf(s, ']', a + 1);
        if b == a + 1 || !OccursAt(s, "](/uploads", b) then None
        else
          var d := IndexOf(s, ')', b + 10);
          if d == |s| || d == b + 10 then None
          else Some(Link(d + 1 - i, s[i..a], s[a + 1..b], s[b + 2..d]))
  }

  /** What `LinkAt` finds is a well-formed link whose text occurs at `i`. */
  lemma LinkAtSound(s: string, i: nat)
    requires LinkAt(s, i).Some?
    ensures WellFormed(LinkAt(s, i).value)
    ensures OccursAt(s, LinkText(LinkAt(s, i).value.prefix, LinkAt(s, i).value.name, LinkAt(s, i).value.url), i)
  {
    var a := if s[i] == '!' then i + 1 else i;
    var b := IndexOf(s, ']', a + 1);
    var d := IndexOf(s, ')', b + 10);
    assert LinkAt(s, i) == Some(Link(d + 1 - i, s[i..a], s[a + 1..b], s[b + 2..d]));
    FoundPiecesSound(s, i, a, b, d);
  }

  /** The delimiters `LinkAt` finds with `IndexOf` enclose well-formed groups. */
  lemma FoundPiecesSound(s: string, i: nat, a: nat, b: nat, d: nat)
    requires i <= a <= i + 1 && a < |s| && (a == i + 1 ==> s[i] == '!') && s[a] == '['
    requires a + 1 < b && b == IndexOf(s, ']', a + 1) && OccursAt(s, "](/uploads", b)
    requires b + 10 < d < |s| && d == IndexOf(s, ')', b + 10)
    ensures WellFormed(Link(d + 1 - i, s[i..a], s[a + 1..b], s[b + 2..d]))
    ensures OccursAt(s, LinkText(s[i..a], s[a + 1..b], s[b + 2..d]), i)
  {
    IndexOfFirst(s, ']', a + 1);
    IndexOfFirst(s, ')', b + 10);
    LinkPiecesAt(s, i, a, b, d);
  }

  /** The pieces `LinkAt` finds make up a well-formed link. */
  lemma LinkPiecesAt(s: string, i: nat, a: nat, b: nat, d: nat)
    requires i <= a <= i + 1 && a < |s| && (a == i + 1 ==> s[i] == '!') && s[a] == '['
    requires a + 1 < b && OccursAt(s, "](/uploads", b)
    requires b + 10 < d < |s| && s[d] == ')'
    requires forall k | a + 1 <= k < b :: s[k] != ']'
    requires forall k | b + 10 <= k < d :: s[k] != ')'
    ensures WellFormed(Link(d + 1 - i, s[i..a], s[a + 1..b], s[b + 2..d]))
    ensures OccursAt(s, LinkText(s[i..a], s[a + 1..b], s[b + 2..d]), i)
  {
    OccursAtConcat(s, "](", "/uploads", b);
    LinkPiecesGroups(s, i, a, b, d);
    LinkPiecesText(s, i, a, b, d);
  }

  /** The groups between the delimiters satisfy the expression's character classes. */
  lemma LinkPiecesGroups(s: string, i: nat, a: nat, b: nat, d: nat)
    requires i <= a <= i + 1 && a < |s| && (a == i + 1 ==> s[i] == '!')
    requires a + 1 < b && OccursAt(s, "/uploads", b + 2)
    requires b + 10 < d < |s|
    requires forall k | a + 1 <= k < b :: s[k] != ']'
    requires forall k | b + 10 <= k < d :: s[k] != ')'
    ensures WellFormed(Link(d + 1 - i, s[i..a], s[a + 1..b], s[b + 2..d]))
  {
    var prefix, name, url := s[i..a], s[a + 1..b], s[b + 2..d];
    assert url[..8] == s[b + 2..b + 10];
    OccursAtChars(s, "/uploads", b + 2);
    assert ')' !in url by {
      forall j | 0 <= j < |url| ensures url[j] != ')' {
        assert url[j] == s[b + 2 + j];
        if j < 8 {
          assert s[b + 2 + j] == "/uploads"[j];
        }
      }
    }
    assert ']' !in name by {
      forall j | 0 <= j < |name| ensures name[j] != ']' {
        assert name[j] == s[a + 1 + j];
      }
    }
    assert prefix == "" || prefix == "!" by {
      if a == i + 1 {
        assert prefix == [s[i]];
      }
    }
  }

  /** The text from `i` to the closing parenthesis is the link's text. */
  lemma LinkPiecesText(s: string, i: nat, a: nat, b: nat, d: nat)
    requires i <= a <= i + 1 && a < |s| && s[a] == '['
    requires a + 1 < b && OccursAt(s, "](", b)
    requires b + 10 < d < |s| && s[d] == ')'
    ensures OccursAt(s, LinkText(s[i..a], s[a + 1..b], s[b + 2..d]), i)
  {
    var prefix, name, url := s[i..a], s[a + 1..b], s[b + 2..d];
    assert OccursAt(s, prefix, i);
    assert OccursAt(s, "[", a);
    assert OccursAt(s, name, a + 1);
    assert OccursAt(s, url, b + 2);
    assert OccursAt(s, ")", d);
    TextFromPieces(s, i, prefix, name, url);
  }

  /** The pieces of a link's text, each where it belongs, make up the whole text. */
  lemma TextFromPieces(s: string, i: nat, p: string, n: string, u: string)
    requires OccursAt(s, p, i)
    requires OccursAt(s, "[", i + |p|)
    requires OccursAt(s, n, i + |p| + 1)
    requires OccursAt(s, "](", i + |p| + 1 + |n|)
    requires OccursAt(s, u, i + |p| + 3 + |n|)
    requires OccursAt(s, ")", i + |p| + 3 + |n| + |u|)
    ensures OccursAt(s, LinkText(p, n, u), i)
  {
    var t1 := p + "[";
    OccursAtConcat(s, p, "[", i);
    var t2 := t1 + n;
    OccursAtConcat(s, t1, n, i);
    var t3 := t2 + "](";
    OccursAtConcat(s, t2, "](", i);
    var t4 := t3 + u;
    OccursAtConcat(s, t3, u, i);
    OccursAtConcat(s, t4, ")", i);
    assert t4 + ")" == LinkText(p, n, u);
  }

  /** Where the pieces of a link's text lie in `s`. */
  lemma LinkTextPieces(s: string, i: nat, l: Link)
    requires WellFormed(l) && OccursAt(s, LinkText(l.prefix, l.name, l.url), i)
    ensures OccursAt(s, l.prefix, i)
    ensures OccursAt(s, "[", i + |l.prefix|)
    ensures OccursAt(s, l.name, i + |l.prefix| + 1)
    ensures OccursAt(s, "](/uploads", i + |l.prefix| + 1 + |l.name|)
    ensures OccursAt(s, l.url, i + |l.prefix| + 3 + |l.name|)
    ensures OccursAt(s, l.url[8..], i + |l.prefix| + 11 + |l.name|)
    ensures OccursAt(s, ")", i + |l.prefix| + 3 + |l.name| + |l.url|)
  {
    TextPieces(s, i, l.prefix, l.name, l.url);
    UploadsPieces(s, i + |l.prefix| + 1 + |l.name|, l.url);
  }

  lemma TextPieces(s: string, i: nat, p: string, n: string, u: string)
    requires OccursAt(s, LinkText(p, n, u), i)
    ensures OccursAt(s, p, i)
    ensures OccursAt(s, "[", i + |p|)
    ensures OccursAt(s, n, i + |p| + 1)
    ensures OccursAt(s, "](", i + |p| + 1 + |n|)
    ensures OccursAt(s, u, i + |p| + 3 + |n|)
    ensures OccursAt(s, ")", i + |p| + 3 + |n| + |u|)
  {
    OccursAtConcat(s, p + "[" + n + "](" + u, ")", i);
    OccursAtConcat(s, p + "[" + n + "](", u, i);
    OccursAtConcat(s, p + "[" + n, "](", i);
    OccursAtConcat(s, p + "[", n, i);
    OccursAtConcat(s, p, "[", i);
  }

  lemma UploadsPieces(s: string, b: nat, u: string)
    requires OccursAt(s, "](", b) && OccursAt(s, u, b + 2) && |u| >= 8 && StartsWith(u, "/uploads")
    ensures OccursAt(s, "](/uploads", b)
    ensures OccursAt(s, u[8..], b + 10)
  {
    assert u == "/uploads" + u[8..];
    OccursAtConcat(s, "/uploads", u[8..], b + 2);
    OccursAtConcat(s, "](", "/uploads", b);
  }

  /** A well-formed link is recognised wherever its text occurs. */
  lemma LinkAtComplete(s: string, i: nat, l: Link)
    requires WellFormed(l) && OccursAt(s, LinkText(l.prefix, l.name, l.url), i)
    ensures LinkAt(s, i) == Some(l)
  {
    var a, b, d := i + |l.prefix|, i + |l.prefix| + 1 + |l.name|, i + |l.prefix| + 3 + |l.name| + |l.url|;
    DelimitersOfText(s, i, l);
    GroupsOfText(s, i, l);
    assert Link(d + 1 - i, s[i..a], s[a + 1..b], s[b + 2..d]) == l;
    LinkAtPieces(s, i, a, b, d);
  }

  /** The delimiters of a link's text are where `LinkAt` looks for them. */
  lemma DelimitersOfText(s: string, i: nat, l: Link)
    requires WellFormed(l) && OccursAt(s, LinkText(l.prefix, l.name, l.url), i)
    ensures PiecesAt(s, i, i + |l.prefix|, i + |l.prefix| + 1 + |l.name|, i + |l.prefix| + 3 + |l.name| + |l.url|)
  {
    OpeningOfText(s, i, l);
    NameEndOfText(s, i, l);
    UrlEndOfText(s, i, l);
  }

  /** The `!` and `[` of a link's text, and the `](/uploads` after its name. */
  lemma OpeningOfText(s: string, i: nat, l: Link)
    requires WellFormed(l) && OccursAt(s, LinkText(l.prefix, l.name, l.url), i)
    ensures var a := i + |l.prefix|;
      a < |s| && s[a] == '[' && (a == i + 1 <==> s[i] == '!')
      && OccursAt(s, "](/uploads", a + 1 + |l.name|)
      && a + 3 + |l.name| + |l.url| < |s|
  {
    LinkTextPieces(s, i, l);
    LinkDelimiters(s, i, l);
  }

  /** The first `]` after a link's `[` closes its name. */
  lemma NameEndOfText(s: string, i: nat, l: Link)
    requires WellFormed(l) && OccursAt(s, LinkText(l.prefix, l.name, l.url), i)
    ensures i + |l.prefix| + 1 + |l.name| < |s|
    ensures IndexOf(s, ']', i + |l.prefix| + 1) == i + |l.prefix| + 1 + |l.name|
  {
    LinkTextPieces(s, i, l);
    LinkDelimiters(s, i, l);
    FirstCharAfter(s, l.name, i + |l.prefix| + 1, ']');
  }

  /** The first `)` after a link's `](/uploads` closes its url. */
  lemma UrlEndOfText(s: string, i: nat, l: Link)
    requires WellFormed(l) && OccursAt(s, LinkText(l.prefix, l.name, l.url), i)
    ensures i + |l.prefix| + 3 + |l.name| + |l.url| < |s|
    ensures IndexOf(s, ')', i + |l.prefix| + 11 + |l.name|) == i + |l.prefix| + 3 + |l.name| + |l.url|
  {
    LinkTextPieces(s, i, l);
    LinkDelimiters(s, i, l);
    UrlTailHasNoParen(l.url);
    FirstCharAfter(s, l.url[8..], i + |l.prefix| + 11 + |l.name|, ')');
  }

  lemma UrlTailHasNoParen(url: string)
    requires |url| > 8 && ')' !in url
    ensures ')' !in url[8..]
  {
    forall k | 8 <= k < |url| ensures url[k] != ')' {
      assert url[k] in url;
    }
  }

  /** The slices between the delimiters of a link's text are its groups. */
  lemma GroupsOfText(s: string, i: nat, l: Link)
    requires WellFormed(l) && OccursAt(s, LinkText(l.prefix, l.name, l.url), i)
    ensures var a, b, d := i + |l.prefix|, i + |l.prefix| + 1 + |l.name|, i + |l.prefix| + 3 + |l.name| + |l.url|;
      d < |s| && s[i..a] == l.prefix && s[a + 1..b] == l.name && s[b + 2..d] == l.url && d + 1 - i == l.len
  {
    TextPieces(s, i, l.prefix, l.name, l.url);
  }

  /** The `[`, `]` and `)` of a link, and its optional `!`. */
  lemma LinkDelimiters(s: string, i: nat, l: Link)
    requires l.prefix == "" || l.prefix == "!"
    requires OccursAt(s, l.prefix, i) && OccursAt(s, "[", i + |l.prefix|)
    requires OccursAt(s, "](/uploads", i + |l.prefix| + 1 + |l.name|)
    requires OccursAt(s, ")", i + |l.prefix| + 3 + |l.name| + |l.url|)
    ensures s[i + |l.prefix|] == '[' && (l.prefix == "!" <==> s[i] == '!')
    ensures s[i + |l.prefix| + 1 + |l.name|] == ']'
    ensures s[i + |l.prefix| + 3 + |l.name| + |l.url|] == ')'
  {
    OccursAtChars(s, "[", i + |l.prefix|);
    OccursAtChars(s, l.prefix, i);
    OccursAtChars(s, "](/uploads", i + |l.prefix| + 1 + |l.name|);
    OccursAtChars(s, ")", i + |l.prefix| + 3 + |l.name| + |l.url|);
  }

  /** The first `c` from `i` on is the one right after an occurrence of a `t` without `c`. */
  lemma FirstCharAfter(s: string, t: string, i: nat, c: char)
    requires OccursAt(s, t, i) && c !in t
    requires i + |t| < |s| && s[i + |t|] == c
    ensures IndexOf(s, c, i) == i + |t|
  {
    OccursAtChars(s, t, i);
    forall k | i <= k < i + |t| ensures s[k] != c {
      assert s[k] == t[k - i];
    }
    IndexOfIs(s, c, i, i + |t|);
  }

  /** `LinkAt` finds the link whose pieces are at `a`, `b` and `d`. */
  lemma LinkAtPieces(s: string, i: nat, a: nat, b: nat, d: nat)
    requires PiecesAt(s, i, a, b, d)
    ensures LinkAt(s, i) == Some(Link(d + 1 - i, s[i..a], s[a + 1..b], s[b + 2..d]))
  {
  }

  /** The optional `!` and the `[` end at `a`, the first `]` after it is at `b` and opens `](/uploads`, and the first `)` after that is at `d`. */
  predicate PiecesAt(s: string, i: nat, a: nat, b: nat, d: nat) {
    i <= a <= i + 1 && a < |s| && (a == i + 1 <==> s[i] == '!') && s[a] == '['
    && a + 1 < b && IndexOf(s, ']', a + 1) == b && OccursAt(s, "](/uploads", b)
    && b + 10 < d < |s| && IndexOf(s, ')', b + 10) == d
  }

  /** `IndexOf` finds the first occurrence. */
  lemma {:induction false} IndexOfIs(s: string, c: char, from: nat, j: nat)
    requires from <= j < |s| && s[j] == c
    requires forall k | from <= k < j :: s[k] != c
    ensures IndexOf(s, c, from) == j
    decreases j - from
  {
    if from < j {
      IndexOfIs(s, c, from + 1, j);
    }
  }

  /** A link starts with `[`, possibly after a `!`. */
  lemma LinkStartsWithBracket(s: string, i: nat)
    requires LinkAt(s, i).Some?
    ensures i + |LinkAt(s, i).value.prefix| < |s| && s[i + |LinkAt(s, i).value.prefix|] == '['
  {
    var l := LinkAt(s, i).value;
    LinkAtSound(s, i);
    LinkTextPieces(s, i, l);
    assert s[i + |l.prefix|] == s[i + |l.prefix|..i + |l.prefix| + 1][0];
  }

  /** `body.matchAll(regexp)` from `i` on: each match with its offset. */
  function LinkMatches(s: string, i: nat): seq<(nat, Link)>
    requires i <= |s|
    decreases |s| - i
  {
    if i == |s| then []
    else
      match LinkAt(s, i)
      case Some(l) =>
        LinkFits(s, i);
        [(i, l)] + LinkMatches(s, i + l.len)
      case None => LinkMatches(s, i + 1)
  }

  /** Every match is a link found at its offset, at or after `i`, and the offsets increase. */
  lemma LinkMatchesAreLinks(s: string, i: nat)
    requires i <= |s|
    ensures forall k | 0 <= k < |LinkMatches(s, i)| :: i <= LinkMatches(s, i)[k].0 && LinkAt(s, LinkMatches(s, i)[k].0) == Some(LinkMatches(s, i)[k].1)
    ensures forall a, b | 0 <= a < b < |LinkMatches(s, i)| :: LinkMatches(s, i)[a].0 < LinkMatches(s, i)[b].0
  {
    MatchesAreLinks(s, i, LinkMatches(s, i));
  }

  lemma {:induction false} MatchesAreLinks(s: string, i: nat, ms: seq<(nat, Link)>)
    requires i <= |s| && ms == LinkMatches(s, i)
    ensures forall k | 0 <= k < |ms| :: i <= ms[k].0 && LinkAt(s, ms[k].0) == Some(ms[k].1)
    ensures forall a, b | 0 <= a < b < |ms| :: ms[a].0 < ms[b].0
    decreases |s| - i
  {
    if i < |s| {
      match LinkAt(s, i)
      case Some(l) =>
        LinkMatchesTake(s, i, l);
        var j := i + l.len;
        assert j <= |s|;
        var rest := LinkMatches(s, j);
        assert rest == LinkMatches(s, j);
        MatchesAreLinks(s, j, rest);
        MatchesAfterLink(s, i, l, ms, rest);
      case None =>
        LinkMatchesSkip(s, i);
        MatchesAreLinks(s, i + 1, ms);
    }
  }

  /** Putting a link in front of the matches after it keeps them links found at increasing offsets. */
  lemma MatchesAfterLink(s: string, i: nat, l: Link, ms: seq<(nat, Link)>, rest: seq<(nat, Link)>)
    requires LinkAt(s, i) == Some(l) && 1 <= l.len && ms == [(i, l)] + rest
    requires forall k | 0 <= k < |rest| :: i + l.len <= rest[k].0 && LinkAt(s, rest[k].0) == Some(rest[k].1)
    requires forall a, b | 0 <= a < b < |rest| :: rest[a].0 < rest[b].0
    ensures forall k | 0 <= k < |ms| :: i <= ms[k].0 && LinkAt(s, ms[k].0) == Some(ms[k].1)
    ensures forall a, b | 0 <= a < b < |ms| :: ms[a].0 < ms[b].0
  {
    forall k | 1 <= k < |ms| ensures ms[k] == rest[k - 1] {
    }
  }

  // ---------------------------------------------------------------------------
  // Where an attachment goes

  /** `path.basename`: the last segment, ignoring trailing slashes. */
  function Basename(p: string): (r: string)
    ensures '/' !in r
  {
    if p == [] then ""
    else if p[|p| - 1] == '/' then Basename(p[..|p| - 1])
    else LastSegment(p)
  }

  function LastSegment(p: string): (r: string)
    ensures '/' !in r
  {
    if p == [] || p[|p| - 1] == '/' then "" else LastSegment(p[..|p| - 1]) + [p[|p| - 1]]
  }

  /** The basename of `dir/name` is `name`. */
  lemma {:induction false} BasenameOfPath(dir: string, name: string)
    requires name != "" && '/' !in name
    ensures Basename(dir + "/" + name) == name
  {
    LastSegmentOf(dir + "/", name);
  }

  lemma {:induction false} LastSegmentOf(dir: string, name: string)
    requires dir != [] && dir[|dir| - 1] == '/' && '/' !in name
    ensures LastSegment(dir + name) == name
    decreases |name|
  {
    var p := dir + name;
    if name == [] {
      assert p == dir;
    } else {
      assert p[|p| - 1] == name[|name| - 1];
      assert p[..|p| - 1] == dir + name[..|name| - 1];
      LastSegmentOf(dir, name[..|name| - 1]);
      assert name == name[..|name| - 1] + [name[|name| - 1]];
    }
  }

  /** `[repoId/]sha256(url)/basename`: the repository id is used when it is truthy. */
  function RelativePath(repoId: Option<int>, url: string, sha256Hex: string -> string): (r: string)
    ensures EndsWith(r, sha256Hex(url) + "/" + Basename(url))
    ensures repoId.Some? && repoId.value != 0 ==> r == IntToString(repoId.value) + "/" + sha256Hex(url) + "/" + Basename(url)
    ensures repoId.None? || repoId.value == 0 ==> r == sha256Hex(url) + "/" + Basename(url)
  {
    var file := sha256Hex(url) + "/" + Basename(url);
    var r := if repoId.Some? && repoId.value != 0 then IntToString(repoId.value) + "/" + file else file;
    assert r[|r| - |file|..] == file;
    r
  }

  /** `https://<bucket>.s3.amazonaws.com/<path>`, or path-style with the bucket when a region is set. */
  function S3Url(s3: S3Settings, path: string): string {
    "https://" + S3Host(s3) + "/" + path
  }

  /** The S3 link ends with the object's path and starts with the bucket's address for the configured style. */
  lemma S3UrlShape(s3: S3Settings, path: string)
    ensures EndsWith(S3Url(s3, path), "/" + path)
    ensures s3.region == "" ==> StartsWith(S3Url(s3, path), "https://" + s3.bucket + ".s3.amazonaws.com/")
    ensures s3.region != "" ==> StartsWith(S3Url(s3, path), "https://s3." + s3.region + ".amazonaws.com/" + s3.bucket + "/")
    ensures |S3Url(s3, path)| == |"https:///"| + |S3Host(s3)| + |path|
  {
    var host := S3Host(s3);
    var base := "https://" + host + "/";
    assert S3Url(s3, path) == base + path;
    ConcatAffixes(base, path);
    assert S3Url(s3, path) == "https://" + host + ("/" + path);
    ConcatAffixes("https://" + host, "/" + path);
    if s3.region == "" {
      assert base == "https://" + s3.bucket + ".s3.amazonaws.com/";
    } else {
      assert base == "https://s3." + s3.region + ".amazonaws.com/" + s3.bucket + "/";
    }
  }

  function S3Host(s3: S3Settings): string {
    if s3.region != "" then "s3." + s3.region + ".amazonaws.com/" + s3.bucket
    else s3.bucket + ".s3.amazonaws.com"
  }

  /** Azure can only be written to with a connection string, or an account name and key. */
  predicate AzureHasCredentials(azure: AzureSettings) {
    azure.connectionString != "" || (azure.accountName != "" && azure.accountKey != "")
  }

  /** The configured endpoint, else the account's blob endpoint, else nothing. */
  function AzureBase(azure: AzureSettings): (r: string)
    ensures azure.endpoint != "" ==> r == azure.endpoint
    ensures azure.endpoint == "" && azure.accountName != "" ==> r == "https://" + azure.accountName + ".blob.core.windows.net"
    ensures azure.endpoint == "" && azure.accountName == "" ==> r == ""
  {
    if azure.endpoint != "" then azure.endpoint
    else if azure.accountName != "" then "https://" + azure.accountName + ".blob.core.windows.net"
    else ""
  }

  /** `<base>/<container>/<path>` */
  function AzureUrl(azure: AzureSettings, path: string): (r: string)
    ensures r == AzureBase(azure) + "/" + azure.containerName + "/" + path
  {
    AzureBase(azure) + "/" + azure.containerName + "/" + path
  }

  /** The host, with exactly one `/` between it and the project path, then the project path and the link's url. */
  function GitlabUrl(host: string, projectPath: string, url: string): (r: string)
    ensures StartsWith(r, host)
    ensures EndsWith(r, "/" + projectPath + url)
    ensures |r| == |host| + |projectPath| + |url| + (if EndsWith(host, "/") then 0 else 1)
  {
    var h := if EndsWith(host, "/") then host else host + "/";
    var r := h + projectPath + url;
    assert r[..|host|] == host;
    assert r[|h| - 1] == '/';
    assert r[|r| - |"/" + projectPath + url|..] == "/" + projectPath + url;
    r
  }

  /** The storage that the settings select: S3 when a bucket is set, else Azure when a container is set. */
  datatype Storage = S3Storage(s3: S3Settings) | AzureStorage(azure: AzureSettings) | GitlabStorage

  function StorageFor(s3: Option<S3Settings>, azure: Option<AzureSettings>): (r: Storage)
    ensures r.S3Storage? <==> s3.Some? && s3.value.bucket != ""
    ensures r.AzureStorage? <==> !r.S3Storage? && azure.Some? && azure.value.containerName != ""
  {
    if s3.Some? && s3.value.bucket != "" then S3Storage(s3.value)
    else if azure.Some? && azure.value.containerName != "" then AzureStorage(azure.value)
    else GitlabStorage
  }

  /**
   * What `migrateAttachments` consults: the GitHub repository id, the GitLab
   * host and project path, whether `getAttachment(url)` yields content, the
   * storage settings and the sha256 digest.
   */
  datatype AttachmentContext = AttachmentContext(
    repoId: Option<int>,
    host: string,
    projectPath: string,
    download: string -> bool,
    s3: Option<S3Settings>,
    azure: Option<AzureSettings>,
    sha256Hex: string -> string)

  /**
   * The attachment is not moved: a storage is configured but the download
   * comes back empty, or Azure has no credentials.
   */
  predicate NotMoved(url: string, ctx: AttachmentContext) {
    match StorageFor(ctx.s3, ctx.azure)
    case S3Storage(_) => !ctx.download(url)
    case AzureStorage(azure) => !ctx.download(url) || !AzureHasCredentials(azure)
    case GitlabStorage => false
  }

  /** Where the link points once the attachment has been moved. */
  function NewUrl(url: string, ctx: AttachmentContext): string {
    match StorageFor(ctx.s3, ctx.azure)
    case S3Storage(s3) => S3Url(s3, RelativePath(ctx.repoId, url, ctx.sha256Hex))
    case AzureStorage(azure) => AzureUrl(azure, RelativePath(ctx.repoId, url, ctx.sha256Hex))
    case GitlabStorage => GitlabUrl(ctx.host, ctx.projectPath, url)
  }

  /** The new link text recorded for a match, keeping its prefix and name; None when nothing is recorded. */
  function RelocatedLink(l: Link, ctx: AttachmentContext): Option<string> {
    if NotMoved(l.url, ctx) then None else Some(LinkText(l.prefix, l.name, NewUrl(l.url, ctx)))
  }

  // ---------------------------------------------------------------------------
  // The rewrite

  /**
   * What the final replace does at each match: the callback returns the text
   * recorded for the offset, and an offset with nothing recorded yields
   * `undefined`, which the replace writes out as the word "undefined".
   */
  function Relocator(ctx: AttachmentContext): Matcher {
    (s: string, i: nat) =>
      match LinkAt(s, i)
      case None => None
      case Some(l) => Some(Match(l.len, Show(RelocatedLink(l, ctx))))
  }

  /** The body after `migrateAttachments`. */
  function MigratedAttachments(body: string, ctx: AttachmentContext): string {
    ReplaceAll(Relocator(ctx), body)
  }

  /** `offsetToAttachment` after the loop has seen the matches `ms`. */
  function AttachmentOffsets(ms: seq<(nat, Link)>, ctx: AttachmentContext): map<nat, string> {
    if ms == [] then map[]
    else
      var m := AttachmentOffsets(ms[..|ms| - 1], ctx);
      var last := ms[|ms| - 1];
      match RelocatedLink(last.1, ctx)
      case None => m
      case Some(t) => m[last.0 := t]
  }

  /** The replace callback: the recorded text for the offset, or `undefined`. */
  function OffsetReplacer(offsets: map<nat, string>): Matcher {
    (s: string, i: nat) =>
      match LinkAt(s, i)
      case None => None
      case Some(l) => Some(Match(l.len, if i in offsets then offsets[i] else "undefined"))
  }

  /** The dictionary holds, for the match `m`, exactly its relocated text. */
  predicate OffsetAgrees(offsets: map<nat, string>, m: (nat, Link), ctx: AttachmentContext) {
    (m.0 in offsets <==> RelocatedLink(m.1, ctx).Some?)
    && (m.0 in offsets ==> offsets[m.0] == RelocatedLink(m.1, ctx).value)
  }

  /** The dictionary agrees with every match of `ms`. */
  predicate AllAgree(offsets: map<nat, string>, ms: seq<(nat, Link)>, ctx: AttachmentContext) {
    forall k | 0 <= k < |ms| :: OffsetAgrees(offsets, ms[k], ctx)
  }

  /** Since offsets increase, the dictionary keeps each match's own text. */
  lemma {:induction false} OffsetsRecordRelocations(ms: seq<(nat, Link)>, ctx: AttachmentContext)
    requires forall a, b | 0 <= a < b < |ms| :: ms[a].0 < ms[b].0
    ensures forall k | 0 <= k < |ms| :: OffsetAgrees(AttachmentOffsets(ms, ctx), ms[k], ctx)
    ensures forall o | o in AttachmentOffsets(ms, ctx) :: o <= ms[|ms| - 1].0
  {
    if ms != [] {
      var init := ms[..|ms| - 1];
      var last := ms[|ms| - 1];
      OffsetsRecordRelocations(init, ctx);
      var m0 := AttachmentOffsets(init, ctx);
      assert last.0 !in m0 by {
        if init != [] {
          assert init[|init| - 1].0 < last.0;
        }
      }
      forall k | 0 <= k < |ms| - 1 ensures OffsetAgrees(AttachmentOffsets(ms, ctx), ms[k], ctx) {
        assert ms[k] == init[k] && ms[k].0 < last.0;
        assert OffsetAgrees(m0, init[k], ctx);
      }
    }
  }

  /** A match is non-empty and lies within the text. */
  lemma LinkFits(s: string, i: nat)
    requires LinkAt(s, i).Some?
    ensures 1 <= LinkAt(s, i).value.len <= |s| - i
  {
    LinkAtSound(s, i);
  }

  /** Where no link starts, the matches are those of the next offset. */
  lemma LinkMatchesSkip(s: string, i: nat)
    requires i < |s| && LinkAt(s, i).None?
    ensures LinkMatches(s, i) == LinkMatches(s, i + 1)
  {
  }

  /** Where a link starts, it is the first match and the rest start after it. */
  lemma LinkMatchesTake(s: string, i: nat, l: Link)
    requires i < |s| && LinkAt(s, i) == Some(l)
    ensures 1 <= l.len && i + l.len <= |s|
    ensures LinkMatches(s, i) == [(i, l)] + LinkMatches(s, i + l.len)
  {
    LinkFits(s, i);
    var j := i + l.len;
    assert i < j <= |s|;
    var rest := LinkMatches(s, j);
    assert LinkMatches(s, i) == [(i, l)] + rest;
  }

  /** An offset dictionary that agrees with the matches from `i` agrees with the first one and with those after it. */
  lemma AgreesAfterLink(s: string, i: nat, l: Link, ms: seq<(nat, Link)>, offsets: map<nat, string>, ctx: AttachmentContext)
    requires i < |s| && LinkAt(s, i) == Some(l)
    requires ms == LinkMatches(s, i) && AllAgree(offsets, ms, ctx)
    ensures l.len > 0 && i + l.len <= |s|
    ensures OffsetAgrees(offsets, (i, l), ctx)
    ensures ms == [(i, l)] + ms[1..] && ms[1..] == LinkMatches(s, i + l.len)
    ensures AllAgree(offsets, ms[1..], ctx)
  {
    LinkMatchesTake(s, i, l);
    assert ms[0] == (i, l);
    forall k | 0 <= k < |ms[1..]| ensures OffsetAgrees(offsets, ms[1..][k], ctx) {
      assert ms[1..][k] == ms[k + 1];
    }
  }

  /** Replacing through the offset dictionary gives the relocated text of each match. */
  lemma {:induction false} OffsetReplaceIsRelocation(s: string, i: nat, ms: seq<(nat, Link)>, offsets: map<nat, string>, ctx: AttachmentContext)
    requires i <= |s|
    requires ms == LinkMatches(s, i) && AllAgree(offsets, ms, ctx)
    ensures Scan(OffsetReplacer(offsets), s, i) == Scan(Relocator(ctx), s, i)
    decreases |s| - i
  {
    var m1, m2 := OffsetReplacer(offsets), Relocator(ctx);
    if i < |s| {
      match LinkAt(s, i)
      case None =>
        LinkMatchesSkip(s, i);
        OffsetReplaceIsRelocation(s, i + 1, ms, offsets, ctx);
        ReplacersAgreeAt(s, i, offsets, ctx);
        ScanAgreeNoMatch(m1, m2, s, i);
      case Some(l) =>
        AgreesAfterLink(s, i, l, ms, offsets, ctx);
        OffsetReplaceIsRelocation(s, i + l.len, ms[1..], offsets, ctx);
        ReplacersAgreeAt(s, i, offsets, ctx);
        ScanAgreeAtMatch(m1, m2, s, i, l.len, Show(RelocatedLink(l, ctx)));
    }
  }

  /** At one position the two replacers find the same link, and where the dictionary agrees with it, the same text. */
  lemma ReplacersAgreeAt(s: string, i: nat, offsets: map<nat, string>, ctx: AttachmentContext)
    ensures LinkAt(s, i).None? ==> OffsetReplacer(offsets)(s, i).None? && Relocator(ctx)(s, i).None?
    ensures LinkAt(s, i).Some? && OffsetAgrees(offsets, (i, LinkAt(s, i).value), ctx) ==>
      var l := LinkAt(s, i).value;
      OffsetReplacer(offsets)(s, i) == Relocator(ctx)(s, i) == Some(Match(l.len, Show(RelocatedLink(l, ctx))))
  {
  }

  /**
   * `migrateAttachments(body, githubRepoId, gitlabHelper)`: collects the new
   * link text per match offset, then replaces every match.
   */
  method MigrateAttachments(body: string, ctx: AttachmentContext) returns (r: string)
    ensures r == MigratedAttachments(body, ctx)
  {
    var matches := LinkMatches(body, 0);
    var offsetToAttachment: map<nat, string> := map[];
    for k := 0 to |matches|
      invariant offsetToAttachment == AttachmentOffsets(matches[..k], ctx)
    {
      var (offset, link) := matches[k];
      OffsetsStep(matches, k, ctx);
      var relocated := RelocatedLink(link, ctx);
      if relocated.Some? {
        offsetToAttachment := offsetToAttachment[offset := relocated.value];
      }
    }
    assert matches[..|matches|] == matches;
    OffsetDictionaryReplace(body, ctx);
    r := ReplaceAll(OffsetReplacer(offsetToAttachment), body);
  }

  /** One more match either records its relocated text under its offset or leaves the dictionary as it was. */
  lemma OffsetsStep(ms: seq<(nat, Link)>, k: nat, ctx: AttachmentContext)
    requires k < |ms|
    ensures RelocatedLink(ms[k].1, ctx).None? ==> AttachmentOffsets(ms[..k + 1], ctx) == AttachmentOffsets(ms[..k], ctx)
    ensures RelocatedLink(ms[k].1, ctx).Some? ==>
      AttachmentOffsets(ms[..k + 1], ctx) == AttachmentOffsets(ms[..k], ctx)[ms[k].0 := RelocatedLink(ms[k].1, ctx).value]
  {
    assert ms[..k + 1][..k] == ms[..k];
  }

  /** Replacing through the dictionary built from all matches is the relocation of every link. */
  lemma OffsetDictionaryReplace(body: string, ctx: AttachmentContext)
    ensures ReplaceAll(OffsetReplacer(AttachmentOffsets(LinkMatches(body, 0), ctx)), body) == MigratedAttachments(body, ctx)
  {
    var matches := LinkMatches(body, 0);
    var offsets := AttachmentOffsets(matches, ctx);
    LinkMatchesAreLinks(body, 0);
    OffsetsRecordRelocations(matches, ctx);
    OffsetReplaceIsRelocation(body, 0, matches, offsets, ctx);
  }

  // ---------------------------------------------------------------------------
  // Properties

  /** Only text that contains `](/uploads` can be a link. */
  lemma LinkNeedsUploadsMarker(s: string, i: nat)
    requires LinkAt(s, i).Some?
    ensures Contains(s, "](/uploads")
  {
    var l := LinkAt(s, i).value;
    LinkAtSound(s, i);
    LinkTextPieces(s, i, l);
  }

  /** A body without upload links comes back unchanged. */
  lemma NoUploadLinksUnchanged(body: string, ctx: AttachmentContext)
    requires !Contains(body, "](/uploads")
    ensures MigratedAttachments(body, ctx) == body
    ensures MigratedAttachmentsKeepingFailures(body, ctx) == body
  {
    forall k | 0 <= k < |body| ensures LinkAt(body, k).None? {
      if LinkAt(body, k).Some? {
        LinkNeedsUploadsMarker(body, k);
      }
    }
    NoMatchUnchanged(Relocator(ctx), body);
    NoMatchUnchanged(KeepingReplacer(ctx), body);
  }

  /** No link starts in a stretch without `[` (and the stretch cannot end just before the link's `[`). */
  lemma NoLinkWithoutBracket(s: string, i: nat, from: nat, to: nat)
    requires from <= i < to <= |s|
    requires forall k | from <= k < to :: s[k] != '['
    requires to < |s| && s[to] == '[' ==> !(i + 1 == to && s[i] == '!')
    ensures LinkAt(s, i).None?
  {
    if LinkAt(s, i).Some? {
      LinkStartsWithBracket(s, i);
      assert false;
    }
  }

  /** The body is plain text, one link, plain text. */
  predicate OneLinkIn(pre: string, l: Link, post: string) {
    WellFormed(l) && '[' !in pre && '[' !in post
    && (l.prefix == "" ==> !EndsWith(pre, "!"))
  }

  /** In such a body the expression matches at the link and nowhere else. */
  lemma OnlyLinkAt(pre: string, l: Link, post: string)
    requires OneLinkIn(pre, l, post)
    ensures var s := pre + LinkText(l.prefix, l.name, l.url) + post;
      && LinkAt(s, |pre|) == Some(l)
      && (forall k | 0 <= k < |pre| :: LinkAt(s, k).None?)
      && (forall k | |pre| + l.len <= k < |s| :: LinkAt(s, k).None?)
  {
    var t := LinkText(l.prefix, l.name, l.url);
    var s := pre + t + post;
    var e := |pre| + |t|;
    assert s[|pre|..e] == t;
    LinkAtComplete(s, |pre|, l);
    assert forall k | 0 <= k < |pre| :: s[k] == pre[k];
    assert s[|pre|] == t[0];
    forall k | 0 <= k < |pre| ensures LinkAt(s, k).None? {
      NoLinkWithoutBracket(s, k, 0, |pre|);
    }
    assert forall j | e <= j < |s| :: s[j] == post[j - e];
    forall k | e <= k < |s| ensures LinkAt(s, k).None? {
      NoLinkWithoutBracket(s, k, e, |s|);
    }
  }

  /** A replace that can only match at links rewrites the one link of such a body and copies the rest. */
  lemma ScanOneLink(pre: string, l: Link, post: string, m: Matcher, rep: string)
    requires OneLinkIn(pre, l, post)
    requires forall s: string, k: nat :: Fires(m, s, k) ==> LinkAt(s, k).Some?
    requires m(pre + LinkText(l.prefix, l.name, l.url) + post, |pre|) == Some(Match(l.len, rep))
    ensures Scan(m, pre + LinkText(l.prefix, l.name, l.url) + post, 0) == pre + rep + post
  {
    var s := pre + LinkText(l.prefix, l.name, l.url) + post;
    var e := |pre| + l.len;
    OnlyLinkAt(pre, l, post);
    forall k | 0 <= k < |pre| ensures !Fires(m, s, k) {
      assert LinkAt(s, k).None?;
    }
    ScanSingleMatch(m, s, |pre|, e, rep);
    assert s[..|pre|] == pre;
    assert s[e..] == post;
  }

  /** With one link in the body, that link alone is rewritten, to its relocation or to "undefined". */
  lemma OneLinkRewritten(pre: string, l: Link, post: string, ctx: AttachmentContext)
    requires OneLinkIn(pre, l, post)
    ensures MigratedAttachments(pre + LinkText(l.prefix, l.name, l.url) + post, ctx)
         == pre + Show(RelocatedLink(l, ctx)) + post
  {
    OnlyLinkAt(pre, l, post);
    ScanOneLink(pre, l, post, Relocator(ctx), Show(RelocatedLink(l, ctx)));
  }

  /**
   * A link whose download fails in S3 mode turns into the word "undefined":
   * the link text is lost from the body.
   */
  lemma FailedDownloadBecomesUndefined(pre: string, l: Link, post: string, ctx: AttachmentContext)
    requires OneLinkIn(pre, l, post)
    requires StorageFor(ctx.s3, ctx.azure).S3Storage? && !ctx.download(l.url)
    ensures MigratedAttachments(pre + LinkText(l.prefix, l.name, l.url) + post, ctx) == pre + "undefined" + post
  {
    OneLinkRewritten(pre, l, post, ctx);
  }

  /** Without a storage bucket, links are made absolute on the GitLab host, keeping prefix and name. */
  lemma GitlabLinkMadeAbsolute(pre: string, l: Link, post: string, ctx: AttachmentContext)
    requires OneLinkIn(pre, l, post)
    requires StorageFor(ctx.s3, ctx.azure).GitlabStorage?
    ensures MigratedAttachments(pre + LinkText(l.prefix, l.name, l.url) + post, ctx)
         == pre + LinkText(l.prefix, l.name, GitlabUrl(ctx.host, ctx.projectPath, l.url)) + post
  {
    OneLinkRewritten(pre, l, post, ctx);
  }

  // ---------------------------------------------------------------------------
  // Corrected rewrite: a link that could not be moved keeps its original text

  function KeepingReplacer(ctx: AttachmentContext): Matcher {
    (s: string, i: nat) =>
      match LinkAt(s, i)
      case None => None
      case Some(l) =>
        Some(Match(l.len, match RelocatedLink(l, ctx) case Some(t) => t case None => LinkText(l.prefix, l.name, l.url)))
  }

  /** The rewrite with failed links left as they were. */
  function MigratedAttachmentsKeepingFailures(body: string, ctx: AttachmentContext): string {
    ReplaceAll(KeepingReplacer(ctx), body)
  }

  /** When no attachment can be moved, the corrected rewrite leaves the body unchanged. */
  lemma FailedDownloadsKeepBody(body: string, ctx: AttachmentContext)
    requires !StorageFor(ctx.s3, ctx.azure).GitlabStorage?
    requires forall k | 0 <= k < |body| && LinkAt(body, k).Some? :: !ctx.download(LinkAt(body, k).value.url)
    ensures MigratedAttachmentsKeepingFailures(body, ctx) == body
  {
    var m := KeepingReplacer(ctx);
    forall k | 0 <= k < |body| ensures EchoesAt(m, body, k) {
      if Fires(m, body, k) {
        var l := LinkAt(body, k).value;
        LinkAtSound(body, k);
        assert RelocatedLink(l, ctx).None?;
      }
    }
    ScanEcho(m, body, 0);
  }

  /** The corrected rewrite still relocates every link that can be moved. */
  lemma KeepingFailuresAgreesOnMovedLinks(pre: string, l: Link, post: string, ctx: AttachmentContext)
    requires OneLinkIn(pre, l, post)
    ensures MigratedAttachmentsKeepingFailures(pre + LinkText(l.prefix, l.name, l.url) + post, ctx)
         == pre + (match RelocatedLink(l, ctx) case Some(t) => t case None => LinkText(l.prefix, l.name, l.url)) + post
  {
    OnlyLinkAt(pre, l, post);
    ScanOneLink(pre, l, post, KeepingReplacer(ctx),
      match RelocatedLink(l, ctx) case Some(t) => t case None => LinkText(l.prefix, l.name, l.url));
  }

  /** When every link can be moved, the corrected rewrite and the rewrite as written agree. */
  lemma MovedLinksAgree(body: string, ctx: AttachmentContext)
    requires forall k | 0 <= k < |body| && LinkAt(body, k).Some? :: !NotMoved(LinkAt(body, k).value.url, ctx)
    ensures MigratedAttachments(body, ctx) == MigratedAttachmentsKeepingFailures(body, ctx)
  {
    forall k | 0 <= k < |body| ensures Relocator(ctx)(body, k) == KeepingReplacer(ctx)(body, k) {
      if LinkAt(body, k).Some? {
        assert RelocatedLink(LinkAt(body, k).value, ctx).Some?;
      }
    }
    ScanSameMatches(Relocator(ctx), KeepingReplacer(ctx), body, 0);
  }

  // ---------------------------------------------------------------------------
  // organizationUsersString

  /** A user as shown in the list: `@` and the mapped GitHub name, or the GitLab name as is. */
  function DisplayName(usermap: StrMap, user: string): (r: string)
    ensures Lookup(usermap, user).Some? && Lookup(usermap, user).value != "" ==> r == "@" + Lookup(usermap, user).value
    ensures Lookup(usermap, user).None? || Lookup(usermap, user).value == "" ==> r == user
  {
    match Lookup(usermap, user)
    case Some(g) => if g != "" then "@" + g else user
    case None => user
  }

  function DisplayNames(usermap: StrMap, users: seq<string>): (r: seq<string>)
    ensures |r| == |users|
    ensures forall k | 0 <= k < |users| :: r[k] == DisplayName(usermap, users[k])
  {
    seq(|users|, k requires 0 <= k < |users| => DisplayName(usermap, users[k]))
  }

  /** `organizationUsersString(users, prefix)` */
  method OrganizationUsersString(usermap: StrMap, users: seq<string>, prefix: string) returns (r: string)
    ensures |users| == 0 ==> r == ""
    ensures |users| > 0 ==> r == "\n\n**" + prefix + ":** " + Join(DisplayNames(usermap, users), ", ")
  {
    var organizationUsers: seq<string> := [];
    for k := 0 to |users|
      invariant |organizationUsers| == k
      invariant forall j | 0 <= j < k :: organizationUsers[j] == DisplayName(usermap, users[j])
    {
      var githubUser := Lookup(usermap, users[k]);
      var shown: string;
      if githubUser.Some? && githubUser.value != "" {
        shown := "@" + githubUser.value;
      } else {
        shown := users[k];
      }
      organizationUsers := organizationUsers + [shown];
    }
    assert organizationUsers == DisplayNames(usermap, users);
    if |organizationUsers| > 0 {
      return "\n\n**" + prefix + ":** " + Join(organizationUsers, ", ");
    }
    return "";
  }

  /** A user the usermap maps to a non-empty GitHub name appears in the list as a mention of that name. */
  lemma MappedUserMentioned(usermap: StrMap, users: seq<string>, k: nat, github: string)
    requires k < |users| && Lookup(usermap, users[k]) == Some(github) && github != ""
    ensures Contains(Join(DisplayNames(usermap, users), ", "), "@" + github)
  {
    JoinContainsEach(DisplayNames(usermap, users), ", ", k);
  }
}
