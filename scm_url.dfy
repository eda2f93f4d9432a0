/**
 * `clean_scm_url` of scripts/get-repo-url.py: turns the many spellings of a
 * source-control URL found in a POM (`scm:git:git@github.com:o/r.git`,
 * `git://...`, `ssh://git@...`) into one `https://` form.
 */
module ScmUrl {
  import opened Wrappers
  import opened Strings

  /** The text the `.git` rule searches for. */
  const GitSuffix: string := ".git"

  /**
   * The fixed sequence of global `replace` calls, applied in this order:
   * drop `scm:`, rewrite the `git://` and `ssh://git@` schemes, rewrite the
   * `git@<host>:` shorthand of three hosts, and drop every remaining `git:`.
   */
  function Rewrite(url: string): string
  {
    RewriteHosts(RewriteSchemes(url))
  }

  /** The first three replacements: drop `scm:`, then turn `git://` and `ssh://git@` into `https://`. */
  function RewriteSchemes(url: string): string
  {
    var noScm := ReplaceAll(url, "scm:", "");
    var gitScheme := ReplaceAll(noScm, "git://", "https://");
    ReplaceAll(gitScheme, "ssh://git@", "https://")
  }

  /** The last four: the `git@<host>:` shorthand of three hosts, then drop every `git:`. */
  function RewriteHosts(url: string): string
  {
    var github := ReplaceAll(url, "git@github.com:", "https://github.com/");
    var gitlab := ReplaceAll(github, "git@gitlab.com:", "https://gitlab.com/");
    var bitbucket := ReplaceAll(gitlab, "git@bitbucket.org:", "https://bitbucket.org/");
    ReplaceAll(bitbucket, "git:", "")
  }

  /** What `.*` consumes: everything up to, not including, the next newline. */
  function DropLine(s: string): (r: string)
    ensures |r| <= |s|
    ensures r == [] || r[0] == '\n'
    ensures '\n' !in s ==> r == []
  {
    if s == [] || s[0] == '\n' then s else DropLine(s[1..])
  }

  /**
   * `re.sub(r'\.git.*', '', s)`: every match of `.git` followed by the rest of
   * its line is deleted, scanning from left to right. Python's `.` does not
   * match a newline, so a match ends at the next `\n`.
   */
  function StripGitMatches(s: string): string
    decreases |s|
  {
    if s == [] then []
    else if StartsWith(s, GitSuffix) then StripGitMatches(DropLine(s[4..]))
    else [s[0]] + StripGitMatches(s[1..])
  }

  /** `clean_scm_url`: `None` for an absent or empty text, else the normalised URL. */
  function CleanScmUrl(url: Option<string>): (r: Option<string>)
    ensures r.None? <==> (url.None? || url.value == [])
    ensures r.Some? ==> !Contains(r.value, GitSuffix) && !EndsWithChar(r.value, '/')
  {
    if url.None? || url.value == [] then None
    else
      var stripped := StripGitMatches(Rewrite(url.value));
      StripGitMatchesNoGit(Rewrite(url.value));
      NotContainedInPrefix(stripped, RStripChar(stripped, '/'), GitSuffix);
      Some(RStripChar(stripped, '/'))
  }

  // ---------------------------------------------------------------------
  // The `.git` rule

  /** A prefix of a string without `w` has no `w` either. */
  lemma NotContainedInPrefix(s: string, p: string, w: string)
    requires StartsWith(s, p) && !Contains(s, w)
    ensures !Contains(p, w)
  {
    forall i | 0 <= i <= |p| - |w| && OccursAt(p, w, i)
      ensures OccursAt(s, w, i)
    {
      assert s[i..i + |w|] == p[i..i + |w|];
    }
  }

  /** A first character of the result that is not a newline is copied from `s`. */
  lemma StripGitMatchesHead(s: string)
    ensures var r := StripGitMatches(s);
      r != [] && r[0] != '\n' ==>
        s != [] && !StartsWith(s, GitSuffix) && r[0] == s[0] && r[1..] == StripGitMatches(s[1..])
  {
    if s != [] && StartsWith(s, GitSuffix) {
      var d := DropLine(s[4..]);
      if d != [] {
        assert !StartsWith(d, GitSuffix) by { if |d| >= 4 { assert d[..4][0] == d[0]; } }
      }
    }
  }

  /** A result that starts with `git` comes from a string that starts with `git`. */
  lemma StripGitMatchesPrefix(s: string)
    ensures StartsWith(StripGitMatches(s), "git") ==> StartsWith(s, "git")
  {
    var r := StripGitMatches(s);
    if StartsWith(r, "git") {
      assert r[0] == 'g' && r[1] == 'i' && r[2] == 't';
      StripGitMatchesHead(s);
      var r1 := StripGitMatches(s[1..]);
      assert r1 == r[1..];
      StripGitMatchesHead(s[1..]);
      assert s[1..][1..] == s[2..];
      var r2 := StripGitMatches(s[2..]);
      assert r2 == r1[1..];
      StripGitMatchesHead(s[2..]);
      assert s[0] == 'g' && s[1] == 'i' && s[2] == 't';
      assert s[..3] == "git";
    }
  }

  /** After the `.git` rule no `.git` is left, newline or not. */
  lemma {:induction false} StripGitMatchesNoGit(s: string)
    ensures !Contains(StripGitMatches(s), GitSuffix)
    decreases |s|
  {
    if s == [] {
    } else if StartsWith(s, GitSuffix) {
      StripGitMatchesNoGit(DropLine(s[4..]));
    } else {
      var t := StripGitMatches(s[1..]);
      var r := [s[0]] + t;
      assert r == StripGitMatches(s);
      StripGitMatchesNoGit(s[1..]);
      StripGitMatchesPrefix(s[1..]);
      forall i | 0 <= i <= |r| - 4
        ensures !OccursAt(r, GitSuffix, i)
      {
        if i > 0 {
          assert r[i..i + 4] == t[i - 1..i - 1 + 4];
          assert !OccursAt(t, GitSuffix, i - 1);
        } else {
          assert r[..4] == [s[0]] + t[..3];
          assert |t| >= 3 ==> r[1..4] == t[..3];
          assert OccursAt(r, GitSuffix, 0) ==> StartsWith(t, "git");
          assert StartsWith(s[1..], "git") ==> s[..4] == [s[0]] + s[1..][..3];
        }
      }
    }
  }

  /**
   * On a single line the `.git` rule truncates at the first `.git`: the result is
   * a prefix of `s`, no `.git` starts inside it, and either nothing was removed
   * or a `.git` starts right after it.
   */
  lemma {:induction false} StripGitMatchesTruncates(s: string)
    requires '\n' !in s
    ensures var r := StripGitMatches(s);
      && StartsWith(s, r)
      && (forall j :: 0 <= j < |r| ==> !OccursAt(s, GitSuffix, j))
      && (r == s || OccursAt(s, GitSuffix, |r|))
    decreases |s|
  {
    if s == [] {
    } else if StartsWith(s, GitSuffix) {
      assert DropLine(s[4..]) == [];
    } else {
      assert '\n' !in s[1..] by { assert forall j :: 0 <= j < |s| - 1 ==> s[1..][j] == s[j + 1]; }
      StripGitMatchesTruncates(s[1..]);
      var t := StripGitMatches(s[1..]);
      var r := [s[0]] + t;
      assert r == StripGitMatches(s);
      forall j | 0 <= j < |r|
        ensures !OccursAt(s, GitSuffix, j)
      {
        if j > 0 {
          OccursShift(s, GitSuffix, j);
        }
      }
      if t != s[1..] {
        OccursShift(s, GitSuffix, |r|);
      } else {
        assert r == s;
      }
    }
  }

  /** An occurrence at `j > 0` is one at `j - 1` in the tail. */
  lemma OccursShift(s: string, w: string, j: int)
    requires s != [] && j > 0
    ensures OccursAt(s, w, j) <==> OccursAt(s[1..], w, j - 1)
  {
    if 0 <= j && j + |w| <= |s| {
      var here, there := s[j..j + |w|], s[1..][j - 1..j - 1 + |w|];
      forall k | 0 <= k < |w|
        ensures here[k] == there[k]
      {
      }
      assert here == there;
    }
  }

  /** No replacement text contains a newline, so the rewrite neither adds nor removes one. */
  lemma RewriteNoNewline(url: string)
    requires '\n' !in url
    ensures '\n' !in Rewrite(url)
  {
    var x1 := ReplaceAll(url, "scm:", "");
    ReplaceNoChar(url, "scm:", "", '\n');
    var x2 := ReplaceAll(x1, "git://", "https://");
    ReplaceNoChar(x1, "git://", "https://", '\n');
    var x3 := ReplaceAll(x2, "ssh://git@", "https://");
    ReplaceNoChar(x2, "ssh://git@", "https://", '\n');
    var x4 := ReplaceAll(x3, "git@github.com:", "https://github.com/");
    ReplaceNoChar(x3, "git@github.com:", "https://github.com/", '\n');
    var x5 := ReplaceAll(x4, "git@gitlab.com:", "https://gitlab.com/");
    ReplaceNoChar(x4, "git@gitlab.com:", "https://gitlab.com/", '\n');
    var x6 := ReplaceAll(x5, "git@bitbucket.org:", "https://bitbucket.org/");
    ReplaceNoChar(x5, "git@bitbucket.org:", "https://bitbucket.org/", '\n');
    ReplaceNoChar(x6, "git:", "", '\n');
    SchemesStages(url, x1, x2, x3);
    HostsStages(x3, x4, x5, x6, ReplaceAll(x6, "git:", ""));
  }

  /** For one-line input, the `.git` rule keeps exactly the text before the first `.git`. */
  lemma CleanTruncatesAtFirstGit(url: string)
    requires url != [] && '\n' !in url
    ensures var g := StripGitMatches(Rewrite(url));
      && StartsWith(Rewrite(url), g)
      && (g == Rewrite(url) || OccursAt(Rewrite(url), GitSuffix, |g|))
      && CleanScmUrl(Some(url)) == Some(RStripChar(g, '/'))
  {
    RewriteNoNewline(url);
    StripGitMatchesTruncates(Rewrite(url));
  }

  // ---------------------------------------------------------------------
  // The two GitHub spellings
  //
  // The equations over literal pieces are stated one per lemma, with no other
  // function symbol in sight, so that the solver rearranges them cheaply.

  /** `.git` rule: a character other than `.` is copied. */
  lemma StripGitSkipChar(c: char, u: string)
    requires c != '.'
    ensures StripGitMatches([c] + u) == [c] + StripGitMatches(u)
  {
    var s := [c] + u;
    assert s[0] == c && s[1..] == u;
    assert !StartsWith(s, GitSuffix) by {
      if |s| >= 4 { assert s[..4][0] == c && GitSuffix[0] == '.'; }
    }
  }

  /** `.git` rule: a chunk without `.` is copied. */
  lemma {:induction false} StripGitSkipChunk(a: string, t: string)
    requires '.' !in a
    ensures StripGitMatches(a + t) == a + StripGitMatches(t)
    decreases |a|
  {
    if a == [] {
      assert a + t == t;
    } else {
      var h, rest := a[0], a[1..];
      assert a == [h] + rest;
      Strings.ConcatAssoc([h], rest, t);
      StripGitSkipChar(h, rest + t);
      StripGitSkipChunk(rest, t);
    }
  }

  /** `.git` rule: a `.` that is not followed by `g` is copied. */
  lemma StripGitSkipDot(t: string)
    requires t != [] && t[0] != 'g'
    ensures StripGitMatches(['.'] + t) == ['.'] + StripGitMatches(t)
  {
    var s := ['.'] + t;
    assert !StartsWith(s, GitSuffix) by { if |s| >= 4 { assert s[..4][1] == t[0]; } }
    assert s[1..] == t;
  }

  /** `.git` rule: a final `.git` after a chunk without `.` is all that goes. */
  lemma StripGitTrailing(p: string)
    requires '.' !in p
    ensures StripGitMatches(p + GitSuffix) == p
  {
    assert StripGitMatches(GitSuffix) == [] by {
      assert StartsWith(GitSuffix, GitSuffix);
      assert DropLine(GitSuffix[4..]) == [];
    }
    StripGitSkipChunk(p, GitSuffix);
  }

  /** `.git` rule on `a.b p.git` where only the host's dot and the suffix's dot occur. */
  lemma StripGitHostTrailing(a: string, b: string, p: string)
    requires '.' !in a && '.' !in b && '.' !in p && b != [] && b[0] != 'g'
    ensures StripGitMatches(a + (['.'] + (b + (p + GitSuffix)))) == a + (['.'] + (b + p))
  {
    StripGitTrailing(p);
    StripGitSkipChunk(b, p + GitSuffix);
    StripGitSkipDot(b + (p + GitSuffix));
    StripGitSkipChunk(a, ['.'] + (b + (p + GitSuffix)));
  }

  lemma PiecesHttpsHost(p: string)
    ensures "https://github.com/" + (p + GitSuffix) == "https://github" + (['.'] + ("com/" + (p + GitSuffix)))
  {
  }

  lemma PiecesHttpsHostBare(p: string)
    ensures "https://github.com/" + p == "https://github" + (['.'] + ("com/" + p))
  {
  }

  /** `https://github.com/<p>.git` loses exactly its `.git`. */
  lemma StripGitGitHub(p: string)
    requires '.' !in p
    ensures StripGitMatches("https://github.com/" + (p + GitSuffix)) == "https://github.com/" + p
  {
    PiecesHttpsHost(p);
    PiecesHttpsHostBare(p);
    StripGitHostTrailing("https://github", "com/", p);
  }

  lemma PiecesGitHttpsByG(r: string)
    ensures "git:https://github.com/" + r == ['g'] + ("it:https://" + (['g'] + ("ithub.com/" + r)))
  {
  }

  lemma PiecesGitHttpsByS(r: string)
    ensures "git:https://github.com/" + r == "git:http" + (['s'] + ("://github.com/" + r))
  {
  }

  lemma PiecesGitHttpsByPrefix(r: string)
    ensures "git:https://github.com/" + r == "git:" + ("https://github.com/" + r)
  {
  }

  lemma PiecesHttpsByG(r: string)
    ensures "https://github.com/" + r == "https://" + (['g'] + ("ithub.com/" + r))
  {
  }

  /** A pattern starting with `s` whose second letter is not `:` never matches `git:https://github.com/<r>`. */
  lemma KeepGitHttpsFromS(pat: string, rep: string, r: string, j: nat)
    requires |pat| >= 2 && pat[0] == 's' && pat[1] != ':' && j < |pat| && pat[j] == ':' && ':' !in r
    ensures ReplaceAll("git:https://github.com/" + r, pat, rep) == "git:https://github.com/" + r
  {
    PiecesGitHttpsByS(r);
    ReplaceAbsent(r, pat, rep, j);
    ReplaceSkipChunk("://github.com/", r, pat, rep);
    ReplaceSkipOne('s', "://github.com/" + r, pat, rep, 1);
    ReplaceSkipChunk("git:http", ['s'] + ("://github.com/" + r), pat, rep);
  }

  /**
   * A pattern `git?X...` whose fourth letter is neither `:` nor `h`, or whose
   * fifth letter is not `h`, never matches `git:https://github.com/<r>`.
   */
  lemma KeepGitHttpsFromG(pat: string, rep: string, r: string, k: nat, j: nat)
    requires k == 3 || k == 4
    requires |pat| > k && pat[0] == 'g' && pat[3] != 'h' && pat[k] != "it:https://"[k - 1]
    requires j < |pat| && pat[j] == ':' && ':' !in r
    ensures ReplaceAll("git:https://github.com/" + r, pat, rep) == "git:https://github.com/" + r
  {
    PiecesGitHttpsByG(r);
    ReplaceAbsent(r, pat, rep, j);
    ReplaceSkipChunk("ithub.com/", r, pat, rep);
    ReplaceSkipOne('g', "ithub.com/" + r, pat, rep, 3);
    ReplaceSkipChunk("it:https://", ['g'] + ("ithub.com/" + r), pat, rep);
    ReplaceSkipOne('g', "it:https://" + (['g'] + ("ithub.com/" + r)), pat, rep, k);
  }

  /** `git:` does not occur in `ithub.com/<r>`. */
  lemma KeepGitHubTailRest(r: string)
    requires ':' !in r
    ensures ReplaceAll("ithub.com/" + r, "git:", "") == "ithub.com/" + r
  {
    ReplaceAbsent(r, "git:", "", 3);
    ReplaceSkipChunk("ithub.com/", r, "git:", "");
  }

  /** `git:` does not occur in `github.com/<r>`. */
  lemma KeepGitHubTail(r: string)
    requires ':' !in r
    ensures ReplaceAll(['g'] + ("ithub.com/" + r), "git:", "") == ['g'] + ("ithub.com/" + r)
  {
    KeepGitHubTailRest(r);
    ReplaceSkipOne('g', "ithub.com/" + r, "git:", "", 3);
  }

  /** `git:` does not occur in `https://github.com/<r>`. */
  lemma KeepHttpsGitHub(r: string)
    requires ':' !in r
    ensures ReplaceAll("https://github.com/" + r, "git:", "") == "https://github.com/" + r
  {
    PiecesHttpsByG(r);
    KeepGitHubTail(r);
    ReplaceSkipChunk("https://", ['g'] + ("ithub.com/" + r), "git:", "");
  }

  /** The last rewrite drops the leading `git:` and nothing else. */
  lemma DropGitPrefixHttps(r: string)
    requires ':' !in r
    ensures ReplaceAll("git:https://github.com/" + r, "git:", "") == "https://github.com/" + r
  {
    PiecesGitHttpsByPrefix(r);
    ReplaceDrop("git:", "https://github.com/" + r);
    KeepHttpsGitHub(r);
  }

  /** `RewriteSchemes` read off step by step, each step's result given by name. */
  lemma SchemesStages(u: string, x1: string, x2: string, y: string)
    requires ReplaceAll(u, "scm:", "") == x1
    requires ReplaceAll(x1, "git://", "https://") == x2
    requires ReplaceAll(x2, "ssh://git@", "https://") == y
    ensures RewriteSchemes(u) == y
  {
  }

  /** `RewriteHosts` read off step by step, each step's result given by name. */
  lemma HostsStages(u: string, x1: string, x2: string, x3: string, y: string)
    requires ReplaceAll(u, "git@github.com:", "https://github.com/") == x1
    requires ReplaceAll(x1, "git@gitlab.com:", "https://gitlab.com/") == x2
    requires ReplaceAll(x2, "git@bitbucket.org:", "https://bitbucket.org/") == x3
    requires ReplaceAll(x3, "git:", "") == y
    ensures RewriteHosts(u) == y
  {
  }

  /** The `git@gitlab.com:` and `git@bitbucket.org:` rewrites leave `git:https://github.com/<r>` alone. */
  lemma KeepGitHttpsOtherHosts(r: string)
    requires ':' !in r
    ensures var x := "git:https://github.com/" + r;
      && ReplaceAll(x, "git@gitlab.com:", "https://gitlab.com/") == x
      && ReplaceAll(x, "git@bitbucket.org:", "https://bitbucket.org/") == x
  {
    KeepGitHttpsFromG("git@gitlab.com:", "https://gitlab.com/", r, 3, 14);
    KeepGitHttpsFromG("git@bitbucket.org:", "https://bitbucket.org/", r, 3, 17);
  }

  /** From `git:https://github.com/<r>` the host rewrites give `https://github.com/<r>`. */
  lemma HostsGitHttps(r: string)
    requires ':' !in r
    ensures RewriteHosts("git:https://github.com/" + r) == "https://github.com/" + r
  {
    var x := "git:https://github.com/" + r;
    KeepGitHttpsFromG("git@github.com:", "https://github.com/", r, 3, 14);
    KeepGitHttpsOtherHosts(r);
    DropGitPrefixHttps(r);
    HostsStages(x, x, x, x, "https://github.com/" + r);
  }

  lemma PiecesScmHttps(p: string)
    ensures "scm:git:https://github.com/" + p + GitSuffix == "scm:" + ("git:https://github.com/" + (p + GitSuffix))
  {
  }

  lemma NoColonNoDot(p: string)
    requires ':' !in p && '.' !in p
    ensures ':' !in p + GitSuffix
  {
  }

  /** A string ending in anything but `/` is left alone by `rstrip('/')`. */
  lemma RStripSlashFree(h: string, p: string)
    requires p != [] && p[|p| - 1] != '/'
    ensures RStripChar(h + p, '/') == h + p
  {
    var s := h + p;
    assert s != [] && s[|s| - 1] == p[|p| - 1];
  }

  /** Once `Rewrite` has produced `https://github.com/<p>.git`, the rest of the cleaning gives `https://github.com/<p>`. */
  lemma CleanFromRewrite(u: string, p: string)
    requires u != [] && '.' !in p && p != [] && p[|p| - 1] != '/'
    requires Rewrite(u) == "https://github.com/" + (p + GitSuffix)
    ensures CleanScmUrl(Some(u)) == Some("https://github.com/" + p)
  {
    StripGitGitHub(p);
    RStripSlashFree("https://github.com/", p);
  }

  /** The `scm:` and `git://` rewrites leave `git:https://github.com/<r>` alone. */
  lemma KeepGitHttpsScmGit(r: string)
    requires ':' !in r
    ensures var x := "git:https://github.com/" + r;
      && ReplaceAll(x, "scm:", "") == x
      && ReplaceAll(x, "git://", "https://") == x
  {
    KeepGitHttpsFromS("scm:", "", r, 3);
    KeepGitHttpsFromG("git://", "https://", r, 4, 3);
  }

  /** After dropping the leading `scm:`, the scheme rewrites leave `git:https://github.com/<r>` alone. */
  lemma SchemesGitHttps(r: string)
    requires ':' !in r
    ensures RewriteSchemes("scm:" + ("git:https://github.com/" + r)) == "git:https://github.com/" + r
  {
    var x := "git:https://github.com/" + r;
    KeepGitHttpsFromS("ssh://git@", "https://", r, 3);
    KeepGitHttpsScmGit(r);
    ReplaceDrop("scm:", x);
    SchemesStages("scm:" + x, x, x, x);
  }

  /** The rewrites turn `scm:git:https://github.com/<p>.git` into `https://github.com/<p>.git`. */
  lemma RewriteGitHubHttps(p: string)
    requires ':' !in p && '.' !in p
    ensures Rewrite("scm:git:https://github.com/" + p + GitSuffix) == "https://github.com/" + (p + GitSuffix)
  {
    NoColonNoDot(p);
    PiecesScmHttps(p);
    SchemesGitHttps(p + GitSuffix);
    HostsGitHttps(p + GitSuffix);
  }

  /**
   * The HTTPS spelling: `scm:git:https://github.com/<p>.git` becomes
   * `https://github.com/<p>` for every path `p` without `:` or `.` that does
   * not end with `/`.
   */
  lemma CleanGitHubHttps(p: string)
    requires ':' !in p && '.' !in p && p != [] && p[|p| - 1] != '/'
    ensures CleanScmUrl(Some("scm:git:https://github.com/" + p + GitSuffix)) == Some("https://github.com/" + p)
  {
    RewriteGitHubHttps(p);
    CleanFromRewrite("scm:git:https://github.com/" + p + GitSuffix, p);
  }

  lemma PiecesScmSsh(p: string)
    ensures "scm:git:git@github.com:" + p + GitSuffix == "scm:" + ("git:git@github.com:" + (p + GitSuffix))
  {
  }

  lemma PiecesSshByG(r: string)
    ensures "git:git@github.com:" + r == ['g'] + ("it:" + (['g'] + ("it@" + (['g'] + ("ithub.com:" + r)))))
  {
  }

  lemma PiecesSshByHost(r: string)
    ensures "git:git@github.com:" + r == ['g'] + ("it:" + ("git@github.com:" + r))
  {
  }

  lemma PiecesSshRewritten(r: string)
    ensures ['g'] + ("it:" + ("https://github.com/" + r)) == "git:https://github.com/" + r
  {
  }

  /** A pattern starting with `s` never matches `git:git@github.com:<r>`. */
  lemma KeepGitSshFromS(pat: string, rep: string, r: string, j: nat)
    requires pat != [] && pat[0] == 's' && j < |pat| && pat[j] == ':' && ':' !in r
    ensures ReplaceAll("git:git@github.com:" + r, pat, rep) == "git:git@github.com:" + r
  {
    ReplaceAbsent(r, pat, rep, j);
    ReplaceSkipChunk("git:git@github.com:", r, pat, rep);
  }

  /** `git://` never matches `github.com:<r>`. */
  lemma KeepSshSchemeTail(r: string)
    requires ':' !in r
    ensures ReplaceAll(['g'] + ("ithub.com:" + r), "git://", "https://") == ['g'] + ("ithub.com:" + r)
  {
    ReplaceAbsent(r, "git://", "https://", 3);
    ReplaceSkipChunk("ithub.com:", r, "git://", "https://");
    ReplaceSkipOne('g', "ithub.com:" + r, "git://", "https://", 3);
  }

  /** `git://` never matches `git@github.com:<r>`. */
  lemma KeepSshSchemeHost(r: string)
    requires ':' !in r
    ensures var t := ['g'] + ("ithub.com:" + r);
      ReplaceAll(['g'] + ("it@" + t), "git://", "https://") == ['g'] + ("it@" + t)
  {
    var t := ['g'] + ("ithub.com:" + r);
    KeepSshSchemeTail(r);
    ReplaceSkipChunk("it@", t, "git://", "https://");
    ReplaceSkipOne('g', "it@" + t, "git://", "https://", 3);
  }

  /** `git://` never matches `git:git@github.com:<r>`. */
  lemma KeepGitSshScheme(r: string)
    requires ':' !in r
    ensures ReplaceAll("git:git@github.com:" + r, "git://", "https://") == "git:git@github.com:" + r
  {
    var t := ['g'] + ("it@" + (['g'] + ("ithub.com:" + r)));
    PiecesSshByG(r);
    KeepSshSchemeHost(r);
    ReplaceSkipChunk("it:", t, "git://", "https://");
    ReplaceSkipOne('g', "it:" + t, "git://", "https://", 4);
  }

  /** The three scheme rewrites leave `git:git@github.com:<r>` alone. */
  lemma KeepGitSshSchemes(r: string)
    requires ':' !in r
    ensures var s := "git:git@github.com:" + r;
      && ReplaceAll(s, "scm:", "") == s
      && ReplaceAll(s, "git://", "https://") == s
      && ReplaceAll(s, "ssh://git@", "https://") == s
  {
    KeepGitSshFromS("scm:", "", r, 3);
    KeepGitSshScheme(r);
    KeepGitSshFromS("ssh://git@", "https://", r, 3);
  }

  /** After dropping the leading `scm:`, the scheme rewrites leave `git:git@github.com:<r>` alone. */
  lemma SchemesGitSsh(r: string)
    requires ':' !in r
    ensures RewriteSchemes("scm:" + ("git:git@github.com:" + r)) == "git:git@github.com:" + r
  {
    var s := "git:git@github.com:" + r;
    ReplaceDrop("scm:", s);
    KeepGitSshSchemes(r);
    SchemesStages("scm:" + s, s, s, s);
  }

  /** `git@github.com:` is rewritten once, after the leading `git:`. */
  lemma RewriteGitSshHost(r: string)
    requires ':' !in r
    ensures ReplaceAll("git:git@github.com:" + r, "git@github.com:", "https://github.com/")
      == "git:https://github.com/" + r
  {
    var pat, rep := "git@github.com:", "https://github.com/";
    assert ReplaceAll(pat + r, pat, rep) == rep + r by {
      ReplaceAbsent(r, pat, rep, 14);
      ReplaceMatch(pat, rep, r);
    }
    assert ReplaceAll("it:" + (pat + r), pat, rep) == "it:" + (rep + r) by {
      ReplaceSkipChunk("it:", pat + r, pat, rep);
    }
    assert ReplaceAll(['g'] + ("it:" + (pat + r)), pat, rep) == ['g'] + ("it:" + (rep + r)) by {
      ReplaceSkipOne('g', "it:" + (pat + r), pat, rep, 3);
    }
    PiecesSshByHost(r);
    PiecesSshRewritten(r);
  }

  /** From `git:git@github.com:<r>` the host rewrites give `https://github.com/<r>`. */
  lemma HostsGitSsh(r: string)
    requires ':' !in r
    ensures RewriteHosts("git:git@github.com:" + r) == "https://github.com/" + r
  {
    var h := "git:https://github.com/" + r;
    RewriteGitSshHost(r);
    KeepGitHttpsOtherHosts(r);
    DropGitPrefixHttps(r);
    HostsStages("git:git@github.com:" + r, h, h, h, "https://github.com/" + r);
  }

  /** The rewrites turn `scm:git:git@github.com:<p>.git` into `https://github.com/<p>.git`. */
  lemma RewriteGitHubSsh(p: string)
    requires ':' !in p && '.' !in p
    ensures Rewrite("scm:git:git@github.com:" + p + GitSuffix) == "https://github.com/" + (p + GitSuffix)
  {
    NoColonNoDot(p);
    PiecesScmSsh(p);
    SchemesGitSsh(p + GitSuffix);
    HostsGitSsh(p + GitSuffix);
  }

  /**
   * The scp-like SSH spelling: `scm:git:git@github.com:<p>.git` becomes
   * `https://github.com/<p>` under the same conditions on `p`.
   */
  lemma CleanGitHubSsh(p: string)
    requires ':' !in p && '.' !in p && p != [] && p[|p| - 1] != '/'
    ensures CleanScmUrl(Some("scm:git:git@github.com:" + p + GitSuffix)) == Some("https://github.com/" + p)
  {
    RewriteGitHubSsh(p);
    CleanFromRewrite("scm:git:git@github.com:" + p + GitSuffix, p);
  }

  lemma PiecesExample()
    ensures "scm:git:git@github.com:" + "org/repo" + GitSuffix == "scm:git:git@github.com:org/repo.git"
    ensures "scm:git:https://github.com/" + "org/repo" + GitSuffix == "scm:git:https://github.com/org/repo.git"
    ensures "https://github.com/" + "org/repo" == "https://github.com/org/repo"
  {
  }

  /** The two spellings of `org/repo` both give `https://github.com/org/repo`. */
  lemma CleanExamples()
    ensures CleanScmUrl(Some("scm:git:git@github.com:org/repo.git")) == Some("https://github.com/org/repo")
    ensures CleanScmUrl(Some("scm:git:https://github.com/org/repo.git")) == Some("https://github.com/org/repo")
  {
    PiecesExample();
    CleanGitHubSsh("org/repo");
    CleanGitHubHttps("org/repo");
  }

  /**
   * Normalising is not idempotent: `scm:` cleans to the empty string, and the
   * empty string cleans to `None`.
   */
  lemma CleanNotIdempotent()
    ensures CleanScmUrl(Some("scm:")) == Some("")
    ensures CleanScmUrl(CleanScmUrl(Some("scm:"))) == None
  {
    ReplaceMatch("scm:", "", "");
    assert "scm:" + "" == "scm:";
  }
}
