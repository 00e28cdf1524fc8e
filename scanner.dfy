/**
 * `String.prototype.replace` with a global regular expression and a replacer
 * callback. A matcher says, for a position, whether the expression matches
 * there (trying its alternatives in order) and what the callback returns.
 * The scan tries each position from the left; after a match it resumes right
 * after the matched text, otherwise it copies one character.
 */
module Scanner {
  import opened Wrappers

  datatype Match = Match(len: nat, replacement: string)

  type Matcher = (string, nat) -> Option<Match>

  /** The matcher matches a non-empty piece of `s` at `i`. */
  predicate Fires(m: Matcher, s: string, i: nat) {
    i < |s| && m(s, i).Some? && 1 <= m(s, i).value.len <= |s| - i
  }

  function Scan(m: Matcher, s: string, i: nat): string
    requires i <= |s|
    decreases |s| - i
  {
    if i == |s| then ""
    else if Fires(m, s, i) then m(s, i).value.replacement + Scan(m, s, i + m(s, i).value.len)
    else [s[i]] + Scan(m, s, i + 1)
  }

  /** `s.replace(re, callback)` for a global `re` */
  function ReplaceAll(m: Matcher, s: string): string {
    Scan(m, s, 0)
  }

  /** A stretch where the expression never matches is copied unchanged. */
  lemma {:induction false} ScanSkip(m: Matcher, s: string, i: nat, j: nat)
    requires i <= j <= |s|
    requires forall k | i <= k < j :: !Fires(m, s, k)
    ensures Scan(m, s, i) == s[i..j] + Scan(m, s, j)
    decreases j - i
  {
    if i < j {
      assert !Fires(m, s, i);
      ScanSkip(m, s, i + 1, j);
      calc {
        Scan(m, s, i);
        [s[i]] + Scan(m, s, i + 1);
        [s[i]] + (s[i + 1..j] + Scan(m, s, j));
        ([s[i]] + s[i + 1..j]) + Scan(m, s, j);
        { assert s[i..j] == [s[i]] + s[i + 1..j]; }
        s[i..j] + Scan(m, s, j);
      }
    }
  }

  /** Text in which the expression never matches is left unchanged. */
  lemma NoMatchUnchanged(m: Matcher, s: string)
    requires forall k | 0 <= k < |s| :: !Fires(m, s, k)
    ensures ReplaceAll(m, s) == s
  {
    ScanSkip(m, s, 0, |s|);
  }

  /** A replacer that always gives back the matched text leaves the string unchanged. */
  predicate EchoesAt(m: Matcher, s: string, k: nat) {
    Fires(m, s, k) ==> m(s, k).value.replacement == s[k..k + m(s, k).value.len]
  }

  lemma {:induction false} ScanEcho(m: Matcher, s: string, i: nat)
    requires i <= |s|
    requires forall k | i <= k < |s| :: EchoesAt(m, s, k)
    ensures Scan(m, s, i) == s[i..]
    decreases |s| - i
  {
    if i < |s| {
      if Fires(m, s, i) {
        var n := m(s, i).value.len;
        assert EchoesAt(m, s, i);
        ScanEcho(m, s, i + n);
        EchoStep(m, s, i);
      } else {
        ScanEcho(m, s, i + 1);
        assert s[i..] == [s[i]] + s[i + 1..];
      }
    }
  }

  lemma EchoStep(m: Matcher, s: string, i: nat)
    requires Fires(m, s, i) && EchoesAt(m, s, i)
    requires Scan(m, s, i + m(s, i).value.len) == s[i + m(s, i).value.len..]
    ensures Scan(m, s, i) == s[i..]
  {
    var n := m(s, i).value.len;
    assert s[i..] == s[i..i + n] + s[i + n..];
  }

  /** A match at `i` contributes its replacement, then the scan goes on after it. */
  lemma ScanAtMatch(m: Matcher, s: string, i: nat)
    requires Fires(m, s, i)
    ensures Scan(m, s, i) == m(s, i).value.replacement + Scan(m, s, i + m(s, i).value.len)
  {
  }

  /** Two matchers with the same match at `i` give the same scan from `i` when they do from the end of that match. */
  lemma ScanAgreeAtMatch(m1: Matcher, m2: Matcher, s: string, i: nat, n: nat, rep: string)
    requires 1 <= n && i + n <= |s|
    requires m1(s, i) == Some(Match(n, rep)) && m2(s, i) == Some(Match(n, rep))
    requires Scan(m1, s, i + n) == Scan(m2, s, i + n)
    ensures Scan(m1, s, i) == Scan(m2, s, i)
  {
    assert Fires(m1, s, i) && Fires(m2, s, i);
  }

  /** Two matchers that both find nothing at `i` give the same scan from `i` when they do from `i + 1`. */
  lemma ScanAgreeNoMatch(m1: Matcher, m2: Matcher, s: string, i: nat)
    requires i < |s| && m1(s, i).None? && m2(s, i).None?
    requires Scan(m1, s, i + 1) == Scan(m2, s, i + 1)
    ensures Scan(m1, s, i) == Scan(m2, s, i)
  {
    assert !Fires(m1, s, i) && !Fires(m2, s, i);
  }

  /** Two matchers that agree at every position from `i` on give the same scan from `i`. */
  lemma {:induction false} ScanSameMatches(m1: Matcher, m2: Matcher, s: string, i: nat)
    requires i <= |s|
    requires forall k | i <= k < |s| :: m1(s, k) == m2(s, k)
    ensures Scan(m1, s, i) == Scan(m2, s, i)
    decreases |s| - i
  {
    if i < |s| {
      if Fires(m1, s, i) {
        ScanSameMatches(m1, m2, s, i + m1(s, i).value.len);
      } else {
        ScanSameMatches(m1, m2, s, i + 1);
      }
    }
  }

  /** A text matched whole at its start becomes the replacement. */
  lemma ScanWhole(m: Matcher, s: string, rep: string)
    requires s != [] && m(s, 0).Some? && m(s, 0).value.len == |s| && m(s, 0).value.replacement == rep
    ensures ReplaceAll(m, s) == rep
  {
    assert Fires(m, s, 0);
    ScanAtMatch(m, s, 0);
  }

  /** A text with a single match, at `a` and ending at `e`, has just that piece replaced. */
  lemma ScanSingleMatch(m: Matcher, s: string, a: nat, e: nat, rep: string)
    requires a < e <= |s|
    requires forall k | 0 <= k < a :: !Fires(m, s, k)
    requires m(s, a) == Some(Match(e - a, rep))
    requires forall k | e <= k < |s| :: !Fires(m, s, k)
    ensures ReplaceAll(m, s) == s[..a] + rep + s[e..]
  {
    assert Fires(m, s, a);
    ScanSkip(m, s, 0, a);
    ScanAtMatch(m, s, a);
    ScanSkip(m, s, e, |s|);
    assert Scan(m, s, |s|) == [];
    calc {
      Scan(m, s, 0);
      s[0..a] + Scan(m, s, a);
      s[0..a] + (rep + Scan(m, s, e));
      s[0..a] + (rep + s[e..|s|]);
    }
    assert s[0..a] == s[..a] && s[e..|s|] == s[e..];
  }
}
