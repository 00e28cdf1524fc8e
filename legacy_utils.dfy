/**
 * The legacy `generateUserProjectRegex` (utils.js): the source text of the
 * regular expression that finds user mentions and cross-project issue
 * references. The keys are pasted in unescaped, so the model is about the
 * pattern string, not about what the pattern matches.
 */
module LegacyUtils {
  import opened Wrappers
  import opened Strings
  import opened Config

  /** `Object.keys(m)` of a dictionary that may be `null`; none for `null`. */
  function KeysOrNone(m: Option<StrMap>): seq<string> {
    if m.None? then [] else Keys(m.value)
  }

  /** The alternatives `@k` for the user keys. */
  function UserAlternatives(usermap: Option<StrMap>): (r: seq<string>)
    ensures |r| == |KeysOrNone(usermap)|
    ensures forall i | 0 <= i < |r| :: r[i] == "@" + KeysOrNone(usermap)[i]
  {
    var ks := KeysOrNone(usermap);
    seq(|ks|, i requires 0 <= i < |ks| => "@" + ks[i])
  }

  /** The alternatives `k#` for the project keys. */
  function ProjectAlternatives(projectmap: Option<StrMap>): (r: seq<string>)
    ensures |r| == |KeysOrNone(projectmap)|
    ensures forall i | 0 <= i < |r| :: r[i] == KeysOrNone(projectmap)[i] + "#"
  {
    var ks := KeysOrNone(projectmap);
    seq(|ks|, i requires 0 <= i < |ks| => ks[i] + "#")
  }

  /** Every alternative of the pattern, user mentions first, in key order. */
  function Alternatives(usermap: Option<StrMap>, projectmap: Option<StrMap>): seq<string> {
    UserAlternatives(usermap) + ProjectAlternatives(projectmap)
  }

  /**
   * generateUserProjectRegex: the pattern is the alternation of one `@user`
   * branch per usermap key and one `project#` branch per projectmap key, and
   * it is empty exactly when both dictionaries are null or empty.
   */
  function GenerateUserProjectRegex(usermap: Option<StrMap>, projectmap: Option<StrMap>): (r: string)
    ensures r == Join(Alternatives(usermap, projectmap), "|")
    ensures r == "" <==> KeysOrNone(usermap) == [] && KeysOrNone(projectmap) == []
  {
    var users := KeysOrNone(usermap);
    var projects := KeysOrNone(projectmap);
    var userPart := if |users| > 0 then "@" + Join(users, "|@") else "";
    var r :=
      if |projects| > 0 then
        (if |userPart| > 0 then userPart + "|" else userPart) + Join(projects, "#|") + "#"
      else userPart;
    assert UserAlternatives(usermap) == Prefixed("@", users);
    assert ProjectAlternatives(projectmap) == Suffixed(projects, "#");
    if |users| > 0 && |projects| > 0 then
      BothPartsAlternation(users, projects);
      r
    else if |users| > 0 then
      UserPart(users);
      assert Prefixed("@", users) + Suffixed(projects, "#") == Prefixed("@", users);
      r
    else if |projects| > 0 then
      ProjectPart(projects);
      assert Prefixed("@", users) + Suffixed(projects, "#") == Suffixed(projects, "#");
      r
    else
      r
  }

  /** The user part, one '|' and the project part join all the alternatives. */
  lemma BothPartsAlternation(users: seq<string>, projects: seq<string>)
    requires |users| > 0 && |projects| > 0
    ensures "@" + Join(users, "|@") + "|" + Join(projects, "#|") + "#"
         == Join(Prefixed("@", users) + Suffixed(projects, "#"), "|")
  {
    var ua := Prefixed("@", users);
    var pa := Suffixed(projects, "#");
    UserPart(users);
    ProjectPart(projects);
    JoinConcat(ua, pa, "|");
  }

  lemma UserPart(users: seq<string>)
    requires |users| > 0
    ensures "@" + Join(users, "|@") == Join(Prefixed("@", users), "|")
  {
    assert "|" + "@" == "|@";
    JoinPrefixed("@", users, "|");
  }

  lemma ProjectPart(projects: seq<string>)
    requires |projects| > 0
    ensures Join(projects, "#|") + "#" == Join(Suffixed(projects, "#"), "|")
  {
    assert "#" + "|" == "#|";
    JoinSuffixed(projects, "#", "|");
  }

  // ---------------------------------------------------------------------------
  // `join` with a separator that repeats a prefix or suffix

  function Prefixed(a: string, ks: seq<string>): (r: seq<string>)
    ensures |r| == |ks| && forall i | 0 <= i < |ks| :: r[i] == a + ks[i]
  {
    seq(|ks|, i requires 0 <= i < |ks| => a + ks[i])
  }

  function Suffixed(ks: seq<string>, b: string): (r: seq<string>)
    ensures |r| == |ks| && forall i | 0 <= i < |ks| :: r[i] == ks[i] + b
  {
    seq(|ks|, i requires 0 <= i < |ks| => ks[i] + b)
  }

  /** `a + ks.join(sep + a)` is `ks.map(k => a + k).join(sep)`. */
  lemma {:induction false} JoinPrefixed(a: string, ks: seq<string>, sep: string)
    requires |ks| >= 1
    ensures a + Join(ks, sep + a) == Join(Prefixed(a, ks), sep)
  {
    if |ks| > 1 {
      JoinPrefixed(a, ks[1..], sep);
      assert Prefixed(a, ks)[1..] == Prefixed(a, ks[1..]);
      calc {
        a + Join(ks, sep + a);
        a + (ks[0] + (sep + a) + Join(ks[1..], sep + a));
        (a + ks[0]) + sep + (a + Join(ks[1..], sep + a));
        Join(Prefixed(a, ks), sep);
      }
    }
  }

  /** `ks.join(b + sep) + b` is `ks.map(k => k + b).join(sep)`. */
  lemma {:induction false} JoinSuffixed(ks: seq<string>, b: string, sep: string)
    requires |ks| >= 1
    ensures Join(ks, b + sep) + b == Join(Suffixed(ks, b), sep)
  {
    if |ks| > 1 {
      JoinSuffixed(ks[1..], b, sep);
      assert Suffixed(ks, b)[1..] == Suffixed(ks[1..], b);
      calc {
        Join(ks, b + sep) + b;
        ks[0] + (b + sep) + Join(ks[1..], b + sep) + b;
        (ks[0] + b) + sep + (Join(ks[1..], b + sep) + b);
        Join(Suffixed(ks, b), sep);
      }
    }
  }

  /** Joining two non-empty lists puts one separator between their joins. */
  lemma {:induction false} JoinConcat(xs: seq<string>, ys: seq<string>, sep: string)
    requires |xs| >= 1 && |ys| >= 1
    ensures Join(xs + ys, sep) == Join(xs, sep) + sep + Join(ys, sep)
  {
    if |xs| == 1 {
      assert (xs + ys)[0] == xs[0];
      assert (xs + ys)[1..] == ys;
    } else {
      JoinConcat(xs[1..], ys, sep);
      assert (xs + ys)[0] == xs[0];
      assert (xs + ys)[1..] == xs[1..] + ys;
    }
  }
}
