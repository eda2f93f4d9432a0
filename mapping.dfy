/**
 * scripts/generate-mapping-workflow.py: from the records of an artifact
 * report, pick the resolved ones, keep the first record per repository URL,
 * trigger one GitHub workflow per kept record and decide the exit code.
 *
 * The records are those of the bulk lookup report, so the `Record` of
 * `BulkLookup` is reused: `resolved` is the report's boolean and a missing
 * `repository_url` is the empty string. Whether each `gh workflow run`
 * succeeds is an input.
 */
module MappingWorkflow {
  import opened Strings
  import opened BulkLookup

  // ---------------------------------------------------------------------
  // Resolved and unresolved

  /** The records with `resolved is True`, in input order. */
  function ResolvedOf(s: seq<Record>): seq<Record>
  {
    if s == [] then []
    else ResolvedOf(s[..|s| - 1]) + (if s[|s| - 1].resolved then [s[|s| - 1]] else [])
  }

  /** The other records, in input order. */
  function UnresolvedOf(s: seq<Record>): seq<Record>
  {
    if s == [] then []
    else UnresolvedOf(s[..|s| - 1]) + (if s[|s| - 1].resolved then [] else [s[|s| - 1]])
  }

  /** `filter_resolved_artifacts`: one pass, appending each record to one of two lists. */
  method FilterResolved(artifacts: seq<Record>) returns (resolved: seq<Record>, unresolved: seq<Record>)
    ensures resolved == ResolvedOf(artifacts)
    ensures unresolved == UnresolvedOf(artifacts)
  {
    resolved, unresolved := [], [];
    for i := 0 to |artifacts|
      invariant resolved == ResolvedOf(artifacts[..i])
      invariant unresolved == UnresolvedOf(artifacts[..i])
    {
      assert artifacts[..i + 1][..i] == artifacts[..i];
      if artifacts[i].resolved {
        resolved := resolved + [artifacts[i]];
      } else {
        unresolved := unresolved + [artifacts[i]];
      }
    }
    assert artifacts[..|artifacts|] == artifacts;
  }

  /** Appending one record appends it to the list its flag selects. */
  lemma FilterSnoc(front: seq<Record>, x: Record)
    ensures ResolvedOf(front + [x]) == ResolvedOf(front) + (if x.resolved then [x] else [])
    ensures UnresolvedOf(front + [x]) == UnresolvedOf(front) + (if x.resolved then [] else [x])
  {
    var s := front + [x];
    assert s[..|s| - 1] == front && s[|s| - 1] == x;
  }

  /**
   * Each record lands in exactly one of the two lists: the lists together are
   * a permutation of the input, the first holds only resolved records and the
   * second only unresolved ones.
   */
  lemma {:induction false} FilterPartition(s: seq<Record>)
    ensures multiset(ResolvedOf(s)) + multiset(UnresolvedOf(s)) == multiset(s)
    ensures forall x :: x in ResolvedOf(s) ==> x.resolved
    ensures forall x :: x in UnresolvedOf(s) ==> !x.resolved
    decreases |s|
  {
    if s != [] {
      var front, x := s[..|s| - 1], s[|s| - 1];
      FilterPartition(front);
      assert s == front + [x];
      FilterSnoc(front, x);
    }
  }

  /** Filtering works piecewise, so the relative order of the records is kept. */
  lemma {:induction false} FilterAppend(a: seq<Record>, b: seq<Record>)
    ensures ResolvedOf(a + b) == ResolvedOf(a) + ResolvedOf(b)
    ensures UnresolvedOf(a + b) == UnresolvedOf(a) + UnresolvedOf(b)
    decreases |b|
  {
    if b == [] {
      assert a + b == a;
    } else {
      var front, x := b[..|b| - 1], b[|b| - 1];
      FilterAppend(a, front);
      assert b == front + [x];
      assert a + b == (a + front) + [x];
      FilterSnoc(a + front, x);
      FilterSnoc(front, x);
      ConcatAssoc(ResolvedOf(a), ResolvedOf(front), if x.resolved then [x] else []);
      ConcatAssoc(UnresolvedOf(a), UnresolvedOf(front), if x.resolved then [] else [x]);
    }
  }

  /** The resolved list is as long as the bulk report's resolved count. */
  lemma {:induction false} ResolvedMatchesCount(s: seq<Record>)
    ensures |ResolvedOf(s)| == CountResolved(s)
    ensures |UnresolvedOf(s)| == |s| - CountResolved(s)
    decreases |s|
  {
    if s != [] {
      ResolvedMatchesCount(s[1..]);
      FilterAppend([s[0]], s[1..]);
      assert [s[0]] + s[1..] == s;
      assert [s[0]][..0] == [];
    }
  }

  // ---------------------------------------------------------------------
  // One record per repository URL

  /** The non-empty repository URLs of `s`, which is what `seen_urls` holds after `s`. */
  function UrlsOf(s: seq<Record>): set<string>
  {
    if s == [] then {}
    else
      var url := s[|s| - 1].repositoryUrl;
      UrlsOf(s[..|s| - 1]) + (if url != [] then {url} else {})
  }

  /** Record `i` has a non-empty URL that no earlier record has. */
  predicate FirstSeen(s: seq<Record>, i: nat)
    requires i < |s|
  {
    s[i].repositoryUrl != [] && s[i].repositoryUrl !in UrlsOf(s[..i])
  }

  /** The records that are first seen for their URL, in input order. */
  function UniqueOf(s: seq<Record>): seq<Record>
  {
    if s == [] then []
    else UniqueOf(s[..|s| - 1]) + (if FirstSeen(s, |s| - 1) then [s[|s| - 1]] else [])
  }

  /** The records whose non-empty URL an earlier record already has. */
  function DuplicatesOf(s: seq<Record>): seq<Record>
  {
    if s == [] then []
    else
      var url := s[|s| - 1].repositoryUrl;
      DuplicatesOf(s[..|s| - 1]) + (if url != [] && url in UrlsOf(s[..|s| - 1]) then [s[|s| - 1]] else [])
  }

  /** `get_unique_repositories`: one pass with a set of the URLs seen so far. */
  method GetUniqueRepositories(artifacts: seq<Record>) returns (unique: seq<Record>, duplicates: seq<Record>)
    ensures unique == UniqueOf(artifacts)
    ensures duplicates == DuplicatesOf(artifacts)
  {
    var seen: set<string> := {};
    unique, duplicates := [], [];
    for i := 0 to |artifacts|
      invariant seen == UrlsOf(artifacts[..i])
      invariant unique == UniqueOf(artifacts[..i])
      invariant duplicates == DuplicatesOf(artifacts[..i])
    {
      var prefix := artifacts[..i + 1];
      assert prefix[..i] == artifacts[..i] && prefix[i] == artifacts[i];
      var url := artifacts[i].repositoryUrl;
      if url != [] {
        if url !in seen {
          seen := seen + {url};
          unique := unique + [artifacts[i]];
        } else {
          duplicates := duplicates + [artifacts[i]];
        }
      }
    }
    assert artifacts[..|artifacts|] == artifacts;
  }

  /** A URL has been seen exactly when it is non-empty and some record carries it. */
  lemma {:induction false} UrlsOfMembers(s: seq<Record>)
    ensures forall u :: u in UrlsOf(s) <==> u != [] && exists j :: 0 <= j < |s| && s[j].repositoryUrl == u
    decreases |s|
  {
    if s != [] {
      var front := s[..|s| - 1];
      UrlsOfMembers(front);
      forall u | u != [] && exists j :: 0 <= j < |s| && s[j].repositoryUrl == u
        ensures u in UrlsOf(s)
      {
        var j :| 0 <= j < |s| && s[j].repositoryUrl == u;
        if j < |s| - 1 {
          assert front[j] == s[j];
        }
      }
    }
  }

  lemma UrlsOfSnoc(s: seq<Record>, x: Record)
    ensures UrlsOf(s + [x]) == UrlsOf(s) + (if x.repositoryUrl != [] then {x.repositoryUrl} else {})
  {
    assert (s + [x])[..|s|] == s;
  }

  /** Between them the kept records carry every non-empty URL of the input, and only those. */
  lemma {:induction false} UniqueUrlsCover(s: seq<Record>)
    ensures UrlsOf(UniqueOf(s)) == UrlsOf(s)
    decreases |s|
  {
    if s != [] {
      var front, x := s[..|s| - 1], s[|s| - 1];
      UniqueUrlsCover(front);
      assert UrlsOf(s) == UrlsOf(front) + (if x.repositoryUrl != [] then {x.repositoryUrl} else {});
      if FirstSeen(s, |s| - 1) {
        assert UniqueOf(s) == UniqueOf(front) + [x];
        UrlsOfSnoc(UniqueOf(front), x);
      } else {
        assert UniqueOf(s) == UniqueOf(front);
      }
    }
  }

  /** The kept records have non-empty URLs. */
  lemma {:induction false} UniqueUrlsNonEmpty(s: seq<Record>)
    ensures forall i :: 0 <= i < |UniqueOf(s)| ==> UniqueOf(s)[i].repositoryUrl != []
    decreases |s|
  {
    if s != [] {
      UniqueUrlsNonEmpty(s[..|s| - 1]);
    }
  }

  /** The kept records have pairwise distinct URLs. */
  lemma {:induction false} UniqueUrlsDistinct(s: seq<Record>)
    ensures forall i, j :: 0 <= i < j < |UniqueOf(s)| ==> UniqueOf(s)[i].repositoryUrl != UniqueOf(s)[j].repositoryUrl
    decreases |s|
  {
    if s != [] {
      var front, x := s[..|s| - 1], s[|s| - 1];
      UniqueUrlsDistinct(front);
      var u := UniqueOf(front);
      if FirstSeen(s, |s| - 1) {
        UniqueUrlsCover(front);
        UrlsOfMembers(u);
        var v := u + [x];
        assert UniqueOf(s) == v;
        forall i, j | 0 <= i < j < |v|
          ensures v[i].repositoryUrl != v[j].repositoryUrl
        {
          if j == |u| {
            assert v[i] == u[i] && v[j] == x;
            assert u[i].repositoryUrl in UrlsOf(u) by {
              UniqueUrlsNonEmpty(front);
            }
          } else {
            assert v[i] == u[i] && v[j] == u[j];
          }
        }
      }
    }
  }

  /** Record `i` of `s` is the first with its URL. */
  predicate FirstWithUrl(s: seq<Record>, i: nat)
    requires i < |s|
  {
    forall j :: 0 <= j < i ==> s[j].repositoryUrl != s[i].repositoryUrl
  }

  /** `x` is a record of `s` that no earlier record shares its URL with. */
  predicate FirstOccurrence(s: seq<Record>, x: Record)
  {
    exists i :: 0 <= i < |s| && s[i] == x && FirstWithUrl(s, i)
  }

  /** Every kept record is the first record of the input with its URL. */
  lemma {:induction false} UniqueFirstSeen(s: seq<Record>)
    ensures forall k :: 0 <= k < |UniqueOf(s)| ==> FirstOccurrence(s, UniqueOf(s)[k])
    decreases |s|
  {
    if s != [] {
      var front, n := s[..|s| - 1], |s| - 1;
      UniqueFirstSeen(front);
      var u := UniqueOf(front);
      forall k | 0 <= k < |UniqueOf(s)|
        ensures FirstOccurrence(s, UniqueOf(s)[k])
      {
        if k < |u| {
          assert UniqueOf(s)[k] == u[k];
          assert FirstOccurrence(front, u[k]);
          var i :| 0 <= i < |front| && front[i] == u[k] && FirstWithUrl(front, i);
          assert s[i] == front[i];
          assert forall j :: 0 <= j < i ==> s[j] == front[j];
          assert FirstWithUrl(s, i);
        } else {
          UrlsOfMembers(front);
          assert UniqueOf(s)[k] == s[n];
          assert forall j :: 0 <= j < n ==> s[j] == front[j];
          assert FirstWithUrl(s, n);
        }
      }
    }
  }

  /** A skipped duplicate carries a non-empty URL seen before it. */
  lemma {:induction false} DuplicatesSeen(s: seq<Record>)
    ensures forall x :: x in DuplicatesOf(s) ==> x.repositoryUrl != [] && x.repositoryUrl in UrlsOf(s)
    decreases |s|
  {
    if s != [] {
      var front := s[..|s| - 1];
      DuplicatesSeen(front);
      assert UrlsOf(front) <= UrlsOf(s);
    }
  }

  /** The URL of every skipped duplicate is the URL of some kept record; records without a URL are in neither list. */
  lemma DuplicatesCovered(s: seq<Record>)
    ensures forall x :: x in DuplicatesOf(s) ==> x.repositoryUrl in UrlsOf(UniqueOf(s))
    ensures forall x :: x in UniqueOf(s) + DuplicatesOf(s) ==> x.repositoryUrl != []
  {
    DuplicatesSeen(s);
    UniqueUrlsCover(s);
    UniqueUrlsNonEmpty(s);
  }

  /** Number of records with a non-empty repository URL. */
  function WithUrlCount(s: seq<Record>): nat
  {
    if s == [] then 0
    else WithUrlCount(s[..|s| - 1]) + (if s[|s| - 1].repositoryUrl != [] then 1 else 0)
  }

  /** Every record with a URL is kept or skipped, never both. */
  lemma {:induction false} UniqueDuplicatesCount(s: seq<Record>)
    ensures |UniqueOf(s)| + |DuplicatesOf(s)| == WithUrlCount(s)
    decreases |s|
  {
    if s != [] {
      UniqueDuplicatesCount(s[..|s| - 1]);
    }
  }

  // ---------------------------------------------------------------------
  // Input order of the kept and skipped records

  /** The positions whose flag is set, in increasing order. */
  function Marked(flags: seq<bool>): seq<nat>
  {
    if flags == [] then []
    else Marked(flags[..|flags| - 1]) + (if flags[|flags| - 1] then [|flags| - 1] else [])
  }

  /** `Marked` lists exactly the set positions, each once, in increasing order. */
  lemma {:induction false} MarkedFacts(flags: seq<bool>)
    ensures forall k :: 0 <= k < |Marked(flags)| ==> Marked(flags)[k] < |flags| && flags[Marked(flags)[k]]
    ensures forall k, l :: 0 <= k < l < |Marked(flags)| ==> Marked(flags)[k] < Marked(flags)[l]
    ensures forall i :: 0 <= i < |flags| && flags[i] ==> i in Marked(flags)
    decreases |flags|
  {
    if flags != [] {
      var front, n := flags[..|flags| - 1], |flags| - 1;
      MarkedFacts(front);
      var m := Marked(front);
      assert Marked(flags) == m + (if flags[n] then [n] else []);
      assert forall i :: 0 <= i < n ==> flags[i] == front[i];
    }
  }

  /** Record `i` has a non-empty URL that an earlier record already has. */
  predicate SeenBefore(s: seq<Record>, i: nat)
    requires i < |s|
  {
    s[i].repositoryUrl != [] && s[i].repositoryUrl in UrlsOf(s[..i])
  }

  /** Which records the loop keeps. */
  function KeptFlags(s: seq<Record>): seq<bool>
  {
    seq(|s|, i requires 0 <= i < |s| => FirstSeen(s, i))
  }

  /** Which records the loop skips as duplicates. */
  function SkippedFlags(s: seq<Record>): seq<bool>
  {
    seq(|s|, i requires 0 <= i < |s| => SeenBefore(s, i))
  }

  /** Whether a record is first seen or seen before depends only on the records up to it. */
  lemma FlagsOfFront(s: seq<Record>)
    requires s != []
    ensures KeptFlags(s)[..|s| - 1] == KeptFlags(s[..|s| - 1])
    ensures SkippedFlags(s)[..|s| - 1] == SkippedFlags(s[..|s| - 1])
  {
    var front := s[..|s| - 1];
    forall i | 0 <= i < |front|
      ensures FirstSeen(s, i) == FirstSeen(front, i) && SeenBefore(s, i) == SeenBefore(front, i)
    {
      assert s[..i] == front[..i];
    }
  }

  /** The kept records are the input records at the kept positions, in that order. */
  lemma {:induction false} UniqueAtMarked(s: seq<Record>)
    ensures |UniqueOf(s)| == |Marked(KeptFlags(s))|
    ensures forall k :: 0 <= k < |UniqueOf(s)| ==> Marked(KeptFlags(s))[k] < |s| && UniqueOf(s)[k] == s[Marked(KeptFlags(s))[k]]
    decreases |s|
  {
    if s != [] {
      var front, n := s[..|s| - 1], |s| - 1;
      UniqueAtMarked(front);
      FlagsOfFront(s);
      MarkedFacts(KeptFlags(front));
      var m, u := Marked(KeptFlags(front)), UniqueOf(front);
      assert Marked(KeptFlags(s)) == m + (if FirstSeen(s, n) then [n] else []);
      assert UniqueOf(s) == u + (if FirstSeen(s, n) then [s[n]] else []);
      assert forall k :: 0 <= k < |m| ==> s[m[k]] == front[m[k]];
    }
  }

  /** The skipped records are the input records at the skipped positions, in that order. */
  lemma {:induction false} DuplicatesAtMarked(s: seq<Record>)
    ensures |DuplicatesOf(s)| == |Marked(SkippedFlags(s))|
    ensures forall k :: 0 <= k < |DuplicatesOf(s)| ==>
      Marked(SkippedFlags(s))[k] < |s| && DuplicatesOf(s)[k] == s[Marked(SkippedFlags(s))[k]]
    decreases |s|
  {
    if s != [] {
      var front, n := s[..|s| - 1], |s| - 1;
      DuplicatesAtMarked(front);
      FlagsOfFront(s);
      MarkedFacts(SkippedFlags(front));
      var m, d := Marked(SkippedFlags(front)), DuplicatesOf(front);
      assert Marked(SkippedFlags(s)) == m + (if SeenBefore(s, n) then [n] else []);
      assert DuplicatesOf(s) == d + (if SeenBefore(s, n) then [s[n]] else []);
      assert forall k :: 0 <= k < |m| ==> s[m[k]] == front[m[k]];
    }
  }

  /**
   * The kept records are the first-seen records of the input, all of them,
   * in input order: `UniqueOf(s)[k]` is `s[idx[k]]` for increasing positions
   * `idx`, which are exactly the first-seen positions.
   */
  lemma UniqueInInputOrder(s: seq<Record>)
    ensures var idx := Marked(KeptFlags(s));
      && |UniqueOf(s)| == |idx|
      && (forall k :: 0 <= k < |idx| ==> idx[k] < |s| && FirstSeen(s, idx[k]) && UniqueOf(s)[k] == s[idx[k]])
      && (forall k, l :: 0 <= k < l < |idx| ==> idx[k] < idx[l])
      && (forall i :: 0 <= i < |s| && FirstSeen(s, i) ==> i in idx)
  {
    UniqueAtMarked(s);
    MarkedFacts(KeptFlags(s));
  }

  /**
   * The skipped records are the records whose URL was seen before, all of
   * them, in input order.
   */
  lemma DuplicatesInInputOrder(s: seq<Record>)
    ensures var idx := Marked(SkippedFlags(s));
      && |DuplicatesOf(s)| == |idx|
      && (forall k :: 0 <= k < |idx| ==> idx[k] < |s| && SeenBefore(s, idx[k]) && DuplicatesOf(s)[k] == s[idx[k]])
      && (forall k, l :: 0 <= k < l < |idx| ==> idx[k] < idx[l])
      && (forall i :: 0 <= i < |s| && SeenBefore(s, i) ==> i in idx)
  {
    DuplicatesAtMarked(s);
    MarkedFacts(SkippedFlags(s));
  }

  // ---------------------------------------------------------------------
  // The workflow command

  /** `build_workflow_command`: the command line shown for one trigger. */
  function BuildWorkflowCommand(a: Record, targetRepo: string, workflowFile: string, ref: string): string
  {
    "gh workflow run " + workflowFile
    + " --repo " + targetRepo
    + " --ref " + ref
    + " --field slug=\"" + a.artifactId + "\""
    + " --field repo_url=\"" + a.repositoryUrl + "\""
    + " --field coordinates=\"" + a.artifact + "\""
  }

  /** The argument vector `trigger_workflow` passes to `gh`. */
  function TriggerArgv(a: Record, targetRepo: string, workflowFile: string, ref: string): seq<string>
  {
    ["gh", "workflow", "run", workflowFile, "--repo", targetRepo, "--ref", ref,
     "--field", "slug=" + a.artifactId,
     "--field", "repo_url=" + a.repositoryUrl,
     "--field", "coordinates=" + a.artifact]
  }

  /** `key=value` shown as `key="value"`; an argument without `=` is shown as it is. */
  function QuoteField(arg: string): string
  {
    var i := IndexOf(arg, '=');
    if i == |arg| then arg else arg[..i + 1] + "\"" + arg[i + 1..] + "\""
  }

  /** How an argument vector is displayed: each value after `--field` is quoted. */
  function Displayed(argv: seq<string>): (d: seq<string>)
    ensures |d| == |argv|
  {
    seq(|argv|, i requires 0 <= i < |argv| => if i > 0 && argv[i - 1] == "--field" then QuoteField(argv[i]) else argv[i])
  }

  lemma {:induction false} IndexOfAfterKey(key: string, value: string)
    requires key != [] && key[|key| - 1] == '=' && '=' !in key[..|key| - 1]
    ensures IndexOf(key + value, '=') == |key| - 1
    decreases |key|
  {
    if |key| > 1 {
      var rest := key[1..];
      assert rest[..|rest| - 1] == key[1..|key| - 1];
      IndexOfAfterKey(rest, value);
      assert key[0] in key[..|key| - 1];
      assert (key + value)[1..] == rest + value;
    }
  }

  /** `key=value` is shown as `key="value"` when the key has no `=` of its own. */
  lemma QuoteFieldOfKey(key: string, value: string)
    requires key != [] && key[|key| - 1] == '=' && '=' !in key[..|key| - 1]
    ensures QuoteField(key + value) == key + "\"" + value + "\""
  {
    IndexOfAfterKey(key, value);
    var arg := key + value;
    assert arg[..|key|] == key;
    assert arg[|key|..] == value;
  }

  lemma QuoteFieldPlain(arg: string)
    requires '=' !in arg
    ensures QuoteField(arg) == arg
  {
  }

  /** Quoting adds no space. */
  lemma QuoteFieldNoSpace(arg: string)
    requires ' ' !in arg
    ensures ' ' !in QuoteField(arg)
  {
    var i := IndexOf(arg, '=');
    if i < |arg| {
      assert arg == arg[..i + 1] + arg[i + 1..];
      assert ' ' !in arg[..i + 1] && ' ' !in arg[i + 1..];
    }
  }

  /** The displayed words of the command head. */
  lemma DisplayedHead(a: Record, targetRepo: string, workflowFile: string, ref: string)
    ensures var d := Displayed(TriggerArgv(a, targetRepo, workflowFile, ref));
      && |d| == 14
      && d[0] == "gh" && d[1] == "workflow" && d[2] == "run" && d[3] == workflowFile
  {
  }

  /** The displayed `--repo` and `--ref` options; a value equal to `--field` does not disturb them. */
  lemma DisplayedOptions(a: Record, targetRepo: string, workflowFile: string, ref: string)
    ensures var d := Displayed(TriggerArgv(a, targetRepo, workflowFile, ref));
      && |d| == 14
      && d[4] == "--repo" && d[5] == targetRepo && d[6] == "--ref" && d[7] == ref
  {
    var d := Displayed(TriggerArgv(a, targetRepo, workflowFile, ref));
    assert d[4] == "--repo" by {
      QuoteFieldPlain("--repo");
    }
    assert d[6] == "--ref" by {
      QuoteFieldPlain("--ref");
    }
  }

  /** The displayed `--field` flags. */
  lemma DisplayedFieldFlags(a: Record, targetRepo: string, workflowFile: string, ref: string)
    ensures var d := Displayed(TriggerArgv(a, targetRepo, workflowFile, ref));
      && |d| == 14
      && d[8] == "--field" && d[10] == "--field" && d[12] == "--field"
  {
    var argv := TriggerArgv(a, targetRepo, workflowFile, ref);
    var d := Displayed(argv);
    assert d[8] == "--field" by {
      QuoteFieldPlain("--field");
    }
    assert d[10] == "--field" by {
      assert argv[9] == "slug=" + a.artifactId;
      assert argv[9][0] == 's' && "--field"[0] == '-';
    }
    assert d[12] == "--field" by {
      assert argv[11] == "repo_url=" + a.repositoryUrl;
      assert argv[11][0] == 'r' && "--field"[0] == '-';
    }
  }

  /** Each displayed field value is quoted after its `=`: the slug, */
  lemma DisplayedSlug(a: Record, targetRepo: string, workflowFile: string, ref: string)
    ensures var d := Displayed(TriggerArgv(a, targetRepo, workflowFile, ref));
      |d| == 14 && d[9] == "slug=" + "\"" + a.artifactId + "\""
  {
    QuoteFieldOfKey("slug=", a.artifactId);
  }

  /** the repository URL, */
  lemma DisplayedRepoUrl(a: Record, targetRepo: string, workflowFile: string, ref: string)
    ensures var d := Displayed(TriggerArgv(a, targetRepo, workflowFile, ref));
      |d| == 14 && d[11] == "repo_url=" + "\"" + a.repositoryUrl + "\""
  {
    QuoteFieldOfKey("repo_url=", a.repositoryUrl);
  }

  /** and the coordinates. */
  lemma DisplayedCoordinates(a: Record, targetRepo: string, workflowFile: string, ref: string)
    ensures var d := Displayed(TriggerArgv(a, targetRepo, workflowFile, ref));
      |d| == 14 && d[13] == "coordinates=" + "\"" + a.artifact + "\""
  {
    QuoteFieldOfKey("coordinates=", a.artifact);
  }

  lemma JoinStep(p: seq<string>, k: nat, sep: char)
    requires k + 1 < |p|
    ensures Join(p[k..], sep) == p[k] + [sep] + Join(p[k + 1..], sep)
  {
    assert p[k..][0] == p[k] && p[k..][1..] == p[k + 1..];
  }

  lemma JoinFold(acc: string, p: seq<string>, k: nat, sep: char)
    requires k + 1 < |p|
    ensures acc + Join(p[k..], sep) == acc + p[k] + [sep] + Join(p[k + 1..], sep)
  {
    JoinStep(p, k, sep);
    assert acc + (p[k] + [sep] + Join(p[k + 1..], sep)) == acc + p[k] + [sep] + Join(p[k + 1..], sep);
  }

  /** Four more words taken off the front of a joined tail. */
  lemma JoinFoldFour(acc: string, w: seq<string>, k: nat)
    requires k + 4 < |w|
    ensures acc + Join(w[k..], ' ')
      == acc + w[k] + " " + w[k + 1] + " " + w[k + 2] + " " + w[k + 3] + " " + Join(w[k + 4..], ' ')
  {
    JoinFold(acc, w, k, ' ');
    JoinFold(acc + w[k] + " ", w, k + 1, ' ');
    JoinFold(acc + w[k] + " " + w[k + 1] + " ", w, k + 2, ' ');
    JoinFold(acc + w[k] + " " + w[k + 1] + " " + w[k + 2] + " ", w, k + 3, ' ');
  }

  /** Fourteen words joined by spaces, written out. */
  lemma JoinFourteen(w: seq<string>)
    requires |w| == 14
    ensures Join(w, ' ') == w[0] + " " + w[1] + " " + w[2] + " " + w[3] + " " + w[4] + " " + w[5] + " " + w[6]
      + " " + w[7] + " " + w[8] + " " + w[9] + " " + w[10] + " " + w[11] + " " + w[12] + " " + w[13]
  {
    var a0: string := w[0] + " ";
    assert Join(w, ' ') == a0 + Join(w[1..], ' ');
    JoinFoldFour(a0, w, 1);
    var a4 := a0 + w[1] + " " + w[2] + " " + w[3] + " " + w[4] + " ";
    JoinFoldFour(a4, w, 5);
    var a8 := a4 + w[5] + " " + w[6] + " " + w[7] + " " + w[8] + " ";
    JoinFoldFour(a8, w, 9);
    assert |w[13..]| == 1 && w[13..][0] == w[13];
    assert Join(w[13..], ' ') == w[13];
  }

  lemma Regroup3(x: string, a: string, b: string, c: string, abc: string)
    requires a + b + c == abc
    ensures x + a + b + c == x + abc
  {
    assert x + a + b + c == x + (a + b + c);
  }

  lemma RegroupField(x: string, a: string, b: string, c: string, key: string, q: string, v: string, g: string)
    requires a + b + c + key + q == g
    ensures x + a + b + c + (key + q + v + q) == x + g + v + q
  {
    assert x + a + b + c + (key + q + v + q) == x + (a + b + c + key + q) + v + q;
  }

  lemma PiecesHead()
    ensures "gh" + " " + "workflow" + " " + "run" + " " == "gh workflow run "
  {
  }

  lemma PiecesRepo()
    ensures " " + "--repo" + " " == " --repo "
  {
  }

  lemma PiecesRef()
    ensures " " + "--ref" + " " == " --ref "
  {
  }

  lemma PiecesSlug()
    ensures " " + "--field" + " " + "slug=" + "\"" == " --field slug=\""
  {
  }

  lemma PiecesRepoUrl()
    ensures " " + "--field" + " " + "repo_url=" + "\"" == " --field repo_url=\""
  {
  }

  lemma PiecesCoordinates()
    ensures " " + "--field" + " " + "coordinates=" + "\"" == " --field coordinates=\""
  {
  }

  /** Any fourteen words with the displayed values join to the shown command. */
  lemma CommandFromWords(w: seq<string>, a: Record, targetRepo: string, workflowFile: string, ref: string)
    requires |w| == 14
    requires w[0] == "gh" && w[1] == "workflow" && w[2] == "run" && w[3] == workflowFile
    requires w[4] == "--repo" && w[5] == targetRepo && w[6] == "--ref" && w[7] == ref
    requires w[8] == "--field" && w[10] == "--field" && w[12] == "--field"
    requires w[9] == "slug=" + "\"" + a.artifactId + "\""
    requires w[11] == "repo_url=" + "\"" + a.repositoryUrl + "\""
    requires w[13] == "coordinates=" + "\"" + a.artifact + "\""
    ensures BuildWorkflowCommand(a, targetRepo, workflowFile, ref) == Join(w, ' ')
  {
    JoinFourteen(w);
    var q := "\"";
    PiecesHead();
    var x1 := "gh workflow run " + workflowFile;
    PiecesRepo();
    Regroup3(x1, " ", "--repo", " ", " --repo ");
    var x2 := x1 + " --repo " + targetRepo;
    PiecesRef();
    Regroup3(x2, " ", "--ref", " ", " --ref ");
    var x3 := x2 + " --ref " + ref;
    PiecesSlug();
    RegroupField(x3, " ", "--field", " ", "slug=", q, a.artifactId, " --field slug=\"");
    var x4 := x3 + " --field slug=\"" + a.artifactId + q;
    PiecesRepoUrl();
    RegroupField(x4, " ", "--field", " ", "repo_url=", q, a.repositoryUrl, " --field repo_url=\"");
    var x5 := x4 + " --field repo_url=\"" + a.repositoryUrl + q;
    PiecesCoordinates();
    RegroupField(x5, " ", "--field", " ", "coordinates=", q, a.artifact, " --field coordinates=\"");
  }

  /** The shown command is the executed argument vector joined by spaces, with each field value quoted. */
  lemma CommandDisplaysArgv(a: Record, targetRepo: string, workflowFile: string, ref: string)
    ensures BuildWorkflowCommand(a, targetRepo, workflowFile, ref)
      == Join(Displayed(TriggerArgv(a, targetRepo, workflowFile, ref)), ' ')
  {
    DisplayedHead(a, targetRepo, workflowFile, ref);
    DisplayedOptions(a, targetRepo, workflowFile, ref);
    DisplayedFieldFlags(a, targetRepo, workflowFile, ref);
    DisplayedSlug(a, targetRepo, workflowFile, ref);
    DisplayedRepoUrl(a, targetRepo, workflowFile, ref);
    DisplayedCoordinates(a, targetRepo, workflowFile, ref);
    CommandFromWords(Displayed(TriggerArgv(a, targetRepo, workflowFile, ref)), a, targetRepo, workflowFile, ref);
  }

  // ---------------------------------------------------------------------
  // Splitting the shown command back into words

  lemma {:induction false} SplitWord(w: string, sep: char)
    requires sep !in w
    ensures Split(w, sep) == [w]
    decreases |w|
  {
    if w != [] {
      SplitWord(w[1..], sep);
      assert w == [w[0]] + w[1..];
    }
  }

  lemma SplitCons(c: char, u: string, sep: char)
    requires c != sep
    ensures Split([c] + u, sep) == [[c] + Split(u, sep)[0]] + Split(u, sep)[1..]
  {
    var s := [c] + u;
    assert s[0] == c && s[1..] == u;
  }

  lemma {:induction false} SplitWordThen(w: string, t: string, sep: char)
    requires sep !in w
    ensures Split(w + [sep] + t, sep) == [w] + Split(t, sep)
    decreases |w|
  {
    if w == [] {
      var s := w + [sep] + t;
      assert s == [sep] + t;
      assert s[0] == sep && s[1..] == t;
    } else {
      SplitWordThen(w[1..], t, sep);
      assert w + [sep] + t == [w[0]] + (w[1..] + [sep] + t);
      SplitCons(w[0], w[1..] + [sep] + t, sep);
      assert [w[0]] + w[1..] == w;
    }
  }

  /** Joining words that do not contain the separator and splitting again gives the words back. */
  lemma {:induction false} JoinSplit(parts: seq<string>, sep: char)
    requires |parts| >= 1
    requires forall k :: 0 <= k < |parts| ==> sep !in parts[k]
    ensures Split(Join(parts, sep), sep) == parts
    decreases |parts|
  {
    if |parts| == 1 {
      SplitWord(parts[0], sep);
    } else {
      JoinSplit(parts[1..], sep);
      SplitWordThen(parts[0], Join(parts[1..], sep), sep);
      assert parts == [parts[0]] + parts[1..];
    }
  }

  /**
   * When no value contains a space, splitting the shown command on spaces
   * recovers the displayed argument vector word for word.
   */
  lemma CommandSplitsIntoArgv(a: Record, targetRepo: string, workflowFile: string, ref: string)
    requires ' ' !in workflowFile && ' ' !in targetRepo && ' ' !in ref
    requires ' ' !in a.artifactId && ' ' !in a.repositoryUrl && ' ' !in a.artifact
    ensures Split(BuildWorkflowCommand(a, targetRepo, workflowFile, ref), ' ')
      == Displayed(TriggerArgv(a, targetRepo, workflowFile, ref))
  {
    CommandDisplaysArgv(a, targetRepo, workflowFile, ref);
    var argv := TriggerArgv(a, targetRepo, workflowFile, ref);
    var d := Displayed(argv);
    assert ' ' !in argv[9] && ' ' !in argv[11] && ' ' !in argv[13];
    forall k | 0 <= k < |d|
      ensures ' ' !in d[k]
    {
      QuoteFieldNoSpace(argv[k]);
    }
    JoinSplit(d, ' ');
  }

  // ---------------------------------------------------------------------
  // Triggering

  /** The command-line settings `main` passes on. */
  datatype Config = Config(repo: string, workflow: string, ref: string, delay: int, dryRun: bool)

  /** One entry of `workflow_commands` or `failed_commands`. */
  datatype Invocation = Invocation(artifact: Record, command: string)

  /** The counters and lists `main` keeps while triggering. */
  datatype TriggerReport = TriggerReport(
    triggered: nat,
    failed: nat,
    triggeredArtifacts: seq<Record>,
    failedArtifacts: seq<Record>,
    workflowCommands: seq<Invocation>,
    failedCommands: seq<Invocation>,
    sleeps: seq<int>)

  /** The delay passed for item `i` of `n`: none after the last. */
  function DelayFor(i: nat, n: nat, delay: int): int
  {
    if i + 1 < n then delay else 0
  }

  /** The sum of the delays of the first `m` items of `n`. */
  function TotalDelay(m: nat, n: nat, delay: int): int
  {
    if m == 0 then 0 else TotalDelay(m - 1, n, delay) + DelayFor(m - 1, n, delay)
  }

  /** `args.delay * (len(unique_artifacts) - 1)`, the total announced before triggering, is the sum of the per-item delays. */
  lemma {:induction false} TotalDelayAnnounced(n: nat, delay: int)
    requires n >= 1
    ensures TotalDelay(n, n, delay) == delay * (n - 1)
  {
    TotalDelayBelowLast(n - 1, n, delay);
  }

  lemma {:induction false} TotalDelayBelowLast(m: nat, n: nat, delay: int)
    requires m < n
    ensures TotalDelay(m, n, delay) == delay * m
  {
    if m > 0 {
      TotalDelayBelowLast(m - 1, n, delay);
    }
  }

  /** `trigger_workflow` reports success on a dry run, else when `gh` succeeded. */
  function Succeeds(cfg: Config, ghOk: bool): bool
  {
    cfg.dryRun || ghOk
  }

  /** The elements `s[i]` whose `keep[i]` is `want`, in order. */
  function Pick<T>(s: seq<T>, keep: seq<bool>, want: bool): seq<T>
    requires |keep| == |s|
  {
    if s == [] then []
    else Pick(s[..|s| - 1], keep[..|s| - 1], want) + (if keep[|s| - 1] == want then [s[|s| - 1]] else [])
  }

  /** Whether each trigger succeeded. */
  function Outcomes(cfg: Config, ghOk: seq<bool>): (r: seq<bool>)
    ensures |r| == |ghOk|
  {
    seq(|ghOk|, i requires 0 <= i < |ghOk| => Succeeds(cfg, ghOk[i]))
  }

  /** The command of each record. */
  function Invocations(s: seq<Record>, cfg: Config): (r: seq<Invocation>)
    ensures |r| == |s|
  {
    seq(|s|, i requires 0 <= i < |s| => Invocation(s[i], BuildWorkflowCommand(s[i], cfg.repo, cfg.workflow, cfg.ref)))
  }

  /** The `time.sleep` calls of the first `m` of `n` triggers: after a real, successful trigger with a positive delay. */
  function SleepsOf(m: nat, n: nat, cfg: Config, ghOk: seq<bool>): seq<int>
    requires m <= |ghOk|
  {
    if m == 0 then []
    else
      var d := DelayFor(m - 1, n, cfg.delay);
      SleepsOf(m - 1, n, cfg, ghOk) + (if !cfg.dryRun && ghOk[m - 1] && d > 0 then [d] else [])
  }

  /** The trigger loop of `main`, with `ghOk[i]` the result of the i-th `gh` run. */
  method TriggerWorkflows(unique: seq<Record>, cfg: Config, ghOk: seq<bool>) returns (report: TriggerReport)
    requires |ghOk| == |unique|
    ensures report.triggeredArtifacts == Pick(unique, Outcomes(cfg, ghOk), true)
    ensures report.failedArtifacts == Pick(unique, Outcomes(cfg, ghOk), false)
    ensures report.triggered == |report.triggeredArtifacts| && report.failed == |report.failedArtifacts|
    ensures report.workflowCommands == Pick(Invocations(unique, cfg), Outcomes(cfg, ghOk), true)
    ensures report.failedCommands == Pick(Invocations(unique, cfg), Outcomes(cfg, ghOk), false)
    ensures report.sleeps == SleepsOf(|unique|, |unique|, cfg, ghOk)
  {
    var n := |unique|;
    var ok := Outcomes(cfg, ghOk);
    var calls := Invocations(unique, cfg);
    report := TriggerReport(0, 0, [], [], [], [], []);
    for i := 0 to n
      invariant report.triggeredArtifacts == Pick(unique[..i], ok[..i], true)
      invariant report.failedArtifacts == Pick(unique[..i], ok[..i], false)
      invariant report.triggered == |report.triggeredArtifacts| && report.failed == |report.failedArtifacts|
      invariant report.workflowCommands == Pick(calls[..i], ok[..i], true)
      invariant report.failedCommands == Pick(calls[..i], ok[..i], false)
      invariant report.sleeps == SleepsOf(i, n, cfg, ghOk)
    {
      assert unique[..i + 1][..i] == unique[..i] && ok[..i + 1][..i] == ok[..i] && calls[..i + 1][..i] == calls[..i];
      var delay := if i < n - 1 then cfg.delay else 0;
      var command := BuildWorkflowCommand(unique[i], cfg.repo, cfg.workflow, cfg.ref);
      var success := cfg.dryRun || ghOk[i];
      if !cfg.dryRun && ghOk[i] && delay > 0 {
        report := report.(sleeps := report.sleeps + [delay]);
      }
      if success {
        report := report.(triggered := report.triggered + 1,
                          triggeredArtifacts := report.triggeredArtifacts + [unique[i]],
                          workflowCommands := report.workflowCommands + [Invocation(unique[i], command)]);
      } else {
        report := report.(failed := report.failed + 1,
                          failedArtifacts := report.failedArtifacts + [unique[i]],
                          failedCommands := report.failedCommands + [Invocation(unique[i], command)]);
      }
    }
    assert unique[..n] == unique && ok[..n] == ok && calls[..n] == calls;
  }

  /** Each record is counted as triggered or as failed: the two lists split the input. */
  lemma {:induction false} PickPartition<T>(s: seq<T>, keep: seq<bool>)
    requires |keep| == |s|
    ensures |Pick(s, keep, true)| + |Pick(s, keep, false)| == |s|
    ensures multiset(Pick(s, keep, true)) + multiset(Pick(s, keep, false)) == multiset(s)
    decreases |s|
  {
    if s != [] {
      var m := |s| - 1;
      PickPartition(s[..m], keep[..m]);
      assert s == s[..m] + [s[m]];
      SplitStep(Pick(s[..m], keep[..m], true), Pick(s[..m], keep[..m], false), s[..m], s[m], keep[m]);
    }
  }

  /** One more element, put on one side or the other, keeps the split a permutation. */
  lemma SplitStep<T>(a: seq<T>, b: seq<T>, front: seq<T>, x: T, left: bool)
    requires |a| + |b| == |front| && multiset(a) + multiset(b) == multiset(front)
    ensures |a + (if left then [x] else [])| + |b + (if left then [] else [x])| == |front + [x]|
    ensures multiset(a + (if left then [x] else [])) + multiset(b + (if left then [] else [x]))
         == multiset(front + [x])
  {
  }

  /** Picking by a vector that is `true` everywhere keeps everything. */
  lemma {:induction false} PickAll<T>(s: seq<T>, keep: seq<bool>)
    requires |keep| == |s| && forall i :: 0 <= i < |keep| ==> keep[i]
    ensures Pick(s, keep, true) == s
    ensures Pick(s, keep, false) == []
    decreases |s|
  {
    if s != [] {
      var m := |s| - 1;
      PickAll(s[..m], keep[..m]);
      assert s == s[..m] + [s[m]];
    }
  }

  /** A dry run triggers every record, fails none and never sleeps. */
  lemma DryRunTriggersAll(unique: seq<Record>, cfg: Config, ghOk: seq<bool>)
    requires |ghOk| == |unique| && cfg.dryRun
    ensures Pick(unique, Outcomes(cfg, ghOk), true) == unique
    ensures Pick(unique, Outcomes(cfg, ghOk), false) == []
    ensures SleepsOf(|unique|, |unique|, cfg, ghOk) == []
  {
    PickAll(unique, Outcomes(cfg, ghOk));
    DryRunNoSleep(|unique|, |unique|, cfg, ghOk);
  }

  lemma {:induction false} DryRunNoSleep(m: nat, n: nat, cfg: Config, ghOk: seq<bool>)
    requires m <= |ghOk| && cfg.dryRun
    ensures SleepsOf(m, n, cfg, ghOk) == []
  {
    if m > 0 {
      DryRunNoSleep(m - 1, n, cfg, ghOk);
    }
  }

  function Sum(s: seq<int>): int
  {
    if s == [] then 0 else Sum(s[..|s| - 1]) + s[|s| - 1]
  }

  /**
   * The last trigger is never followed by a sleep, so there are at most
   * `n - 1` sleeps; when every real trigger succeeds with a positive delay the
   * time slept is the announced total.
   */
  lemma {:induction false} SleepsBounded(m: nat, n: nat, cfg: Config, ghOk: seq<bool>)
    requires m <= |ghOk| && m <= n && n >= 1
    ensures |SleepsOf(m, n, cfg, ghOk)| <= (if m == n then n - 1 else m)
    ensures !cfg.dryRun && cfg.delay > 0 && (forall i :: 0 <= i < m ==> ghOk[i]) ==>
      Sum(SleepsOf(m, n, cfg, ghOk)) == TotalDelay(m, n, cfg.delay)
  {
    if m > 0 {
      SleepsBounded(m - 1, n, cfg, ghOk);
      var s := SleepsOf(m, n, cfg, ghOk);
      var p := SleepsOf(m - 1, n, cfg, ghOk);
      if s != p {
        assert s == p + [DelayFor(m - 1, n, cfg.delay)];
        assert s[..|s| - 1] == p;
      }
    }
  }

  // ---------------------------------------------------------------------
  // The exit code

  /** The final-status decision of `main`. */
  function ExitCode(failed: nat, triggered: nat, uniqueRepos: nat, unresolvedCount: nat): (code: int)
    ensures code == 0 || code == 1
    ensures failed > 0 ==> code == 1
    ensures failed == 0 ==> (code == 1 <==> triggered == 0 && uniqueRepos > 0)
  {
    if failed > 0 then 1
    else if triggered == 0 && uniqueRepos > 0 then 1
    else if unresolvedCount > 0 then 0
    else 0
  }

  /**
   * After the trigger loop every unique record is triggered or failed, so the
   * "no workflows triggered" branch can never be taken: the code is 1 exactly
   * when some trigger failed, whatever the unresolved count.
   */
  lemma ExitCodeAfterTriggers(failed: nat, triggered: nat, uniqueRepos: nat, unresolvedCount: nat)
    requires triggered + failed == uniqueRepos
    ensures !(failed == 0 && triggered == 0 && uniqueRepos > 0)
    ensures ExitCode(failed, triggered, uniqueRepos, unresolvedCount) == (if failed > 0 then 1 else 0)
  {
  }

  /** What `main` computes, without the printing. */
  datatype Processing = Processing(
    total: nat,
    resolved: seq<Record>,
    unresolved: seq<Record>,
    unique: seq<Record>,
    duplicates: seq<Record>,
    report: TriggerReport,
    exitCode: int)

  /**
   * `main` after loading the report: split, deduplicate, trigger, decide.
   * `ghOk[i]` is the result of `gh` for the i-th unique record.
   */
  method Process(artifacts: seq<Record>, cfg: Config, ghOk: seq<bool>) returns (p: Processing)
    requires |ghOk| == |UniqueOf(ResolvedOf(artifacts))|
    ensures p.total == |artifacts| && |p.resolved| + |p.unresolved| == p.total
    ensures p.resolved == ResolvedOf(artifacts) && p.unresolved == UnresolvedOf(artifacts)
    ensures p.unique == UniqueOf(p.resolved) && p.duplicates == DuplicatesOf(p.resolved)
    ensures p.report.triggered + p.report.failed == |p.unique|
    ensures p.report.triggeredArtifacts == Pick(p.unique, Outcomes(cfg, ghOk), true)
    ensures p.report.failedArtifacts == Pick(p.unique, Outcomes(cfg, ghOk), false)
    ensures p.exitCode == (if !cfg.dryRun && exists i :: 0 <= i < |ghOk| && !ghOk[i] then 1 else 0)
  {
    var resolved, unresolved := FilterResolved(artifacts);
    FilterPartition(artifacts);
    assert |multiset(resolved)| + |multiset(unresolved)| == |multiset(artifacts)|;
    var unique, duplicates := GetUniqueRepositories(resolved);
    var report := TriggerReport(0, 0, [], [], [], [], []);
    if unique != [] {
      report := TriggerWorkflows(unique, cfg, ghOk);
    }
    var ok := Outcomes(cfg, ghOk);
    PickPartition(unique, ok);
    FailedIffSomeGhFailed(unique, cfg, ghOk);
    var code := ExitCode(report.failed, report.triggered, |unique|, |unresolved|);
    ExitCodeAfterTriggers(report.failed, report.triggered, |unique|, |unresolved|);
    p := Processing(|artifacts|, resolved, unresolved, unique, duplicates, report, code);
  }

  /** Some trigger fails exactly when it is a real run and some `gh` run failed. */
  lemma FailedIffSomeGhFailed(unique: seq<Record>, cfg: Config, ghOk: seq<bool>)
    requires |ghOk| == |unique|
    ensures |Pick(unique, Outcomes(cfg, ghOk), false)| > 0
      <==> !cfg.dryRun && exists i :: 0 <= i < |ghOk| && !ghOk[i]
  {
    var ok := Outcomes(cfg, ghOk);
    if !cfg.dryRun && exists i :: 0 <= i < |ghOk| && !ghOk[i] {
      var i :| 0 <= i < |ghOk| && !ghOk[i];
      PickHasFalse(unique, ok, i);
    } else {
      PickAll(unique, ok);
    }
  }

  lemma {:induction false} PickHasFalse<T>(s: seq<T>, keep: seq<bool>, i: nat)
    requires |keep| == |s| && i < |s| && !keep[i]
    ensures |Pick(s, keep, false)| > 0
    decreases |s|
  {
    var m := |s| - 1;
    if i < m {
      PickHasFalse(s[..m], keep[..m], i);
    }
  }
}
