# Maven source-repository lookup, modelled in Dafny

The repository finds the source-code repository of a Maven artifact
(`groupId:artifactId`) and then processes whole batches of such lookups.
Three scripts make up its core, and this project models each of them:

- `scripts/get-repo-url.py` first normalises source-control URLs
  (`clean_scm_url`). It then picks the artifact's version from its
  `maven-metadata.xml` and walks the chain of POMs (the artifact's own,
  then its parents') until one of them names a repository. The walk
  short-circuits on the Sonatype and Apache umbrella parents. Finally it
  checks the command-line argument.
  The Dafny modules are `ScmUrl` (`scm_url.dfy`) and `Resolver`
  (`resolver.dfy`).
- `scripts/bulk-repo-lookup.py` reads the artifact list and turns each run
  of the resolver into a result record. It puts records that arrive in
  completion order back into input order, and prints summary counts.
  The Dafny module is `BulkLookup` (`bulk.dfy`).
- `scripts/generate-mapping-workflow.py` splits a report into resolved and
  unresolved records and keeps the first record per repository URL. It
  builds the `gh workflow run` command for each kept record, triggers them
  with a delay between runs, and decides the exit code.
  The Dafny module is `MappingWorkflow` (`mapping.dfy`).

`Strings` (`strings.dfy`) holds the Python string operations the scripts
use, written over `seq<char>`:

- `str.replace`, applied left to right without overlaps;
- `strip` and `rstrip`, using the characters `str.isspace` accepts;
- `split` on one character, and `join`.

`Wrappers` holds `Option`.

Everything the scripts get from outside becomes an input of the model:

- Maven Central is two maps from the exact URLs the script fetches to the
  parsed document that came back. A missing key means the fetch gave
  nothing; `Unparsable` means the XML did not parse.
- The outcome of each resolver subprocess is a `RunOutcome`: an exit with
  code, stdout, stderr and the measured time, a timeout, or another error.
- The order in which parallel runs complete is an arbitrary sequence of
  records.
- Whether each `gh workflow run` succeeded is a `seq<bool>`.

Loops in the source are methods with loop invariants, each proved equal to
a specification function: `GetRepoUrl` (its loop is `Climb`), `ProbeScm`, `ReadArtifacts`,
`FilterResolved`, `GetUniqueRepositories` and `TriggerWorkflows`. The
properties are lemmas about those functions.

## Model

| member | source | states |
|---|---|---|
| ScmUrl.CleanScmUrl | scripts/get-repo-url.py:28-55 | Returns None exactly when the input is absent or empty. Any result contains no `.git` and does not end with `/`. |
| ScmUrl.Rewrite | scripts/get-repo-url.py:37-47 | The seven `str.replace` calls in source order. It has no contract of its own. Its meaning is stated by ScmUrl.RewriteGitHubHttps, ScmUrl.RewriteGitHubSsh and ScmUrl.RewriteNoNewline. |
| ScmUrl.RewriteNoNewline | scripts/get-repo-url.py:37-47 | No replacement introduces a newline, so a single-line URL is still a single line when the `.git.*` substitution sees it. |
| ScmUrl.StripGitMatches | scripts/get-repo-url.py:50 | `re.sub` of `\.git.*` by the empty string, where `.` stops at a newline. It has no contract of its own. ScmUrl.StripGitMatchesNoGit and ScmUrl.StripGitMatchesTruncates state what it does. |
| ScmUrl.CleanTruncatesAtFirstGit | scripts/get-repo-url.py:49-53 | For an input with no newline: after the replace chain, the text is cut just before the first `.git` (or kept whole when there is none), then trailing slashes are removed. |
| ScmUrl.StripGitMatchesNoGit | scripts/get-repo-url.py:50 | The `.git.*` substitution leaves no `.git` anywhere, even on multi-line text, where `.` stops at a newline. |
| ScmUrl.StripGitMatchesTruncates | scripts/get-repo-url.py:50 | On a single line, the substitution keeps a prefix with no `.git` in it, ending at the first `.git` or at the end. |
| ScmUrl.RewriteGitHubHttps | scripts/get-repo-url.py:37-47 | The seven replacements turn `scm:git:https://github.com/<p>.git` into `https://github.com/<p>.git` for every `p` without `:` or `.`: only `scm:` and the leading `git:` are removed. |
| ScmUrl.RewriteGitHubSsh | scripts/get-repo-url.py:37-47 | The seven replacements turn `scm:git:git@github.com:<p>.git` into `https://github.com/<p>.git` for every `p` without `:` or `.`: `git@github.com:` is rewritten once and the leading `git:` dropped. |
| ScmUrl.CleanGitHubHttps | scripts/get-repo-url.py:37-55 | `scm:git:https://github.com/<p>.git` cleans to `https://github.com/<p>` for every path `p` without `:`, `.` or a trailing `/`. |
| ScmUrl.CleanGitHubSsh | scripts/get-repo-url.py:37-55 | `scm:git:git@github.com:<p>.git` cleans to `https://github.com/<p>` for every such path. |
| ScmUrl.CleanExamples | scripts/get-repo-url.py:37-55 | The two documented examples for `org/repo` both give `https://github.com/org/repo`. |
| ScmUrl.CleanNotIdempotent | scripts/get-repo-url.py:28-55 | Cleaning `scm:` gives the empty string, and cleaning that again gives None, so cleaning is not idempotent. |
| Resolver.SelectVersion | scripts/get-repo-url.py:75-92 | Picks the `latest` text if that element exists, else `release`, else the last `<version>`, else no version. |
| Resolver.SelectVersionFromDocument | scripts/get-repo-url.py:75-92 | A chosen version is one of the document's version texts. There is no version exactly when the document has none. |
| Resolver.FirstCleanedNone | scripts/get-repo-url.py:129-138 | The SCM probe gives None exactly when no field has a non-empty cleaned value. |
| Resolver.FirstCleanedAt | scripts/get-repo-url.py:129-138 | When field `i` is the first whose cleaned value is non-empty, the probe gives that cleaned value. |
| Resolver.ProbeScm | scripts/get-repo-url.py:128-138 | The loop over `developerConnection`, `url`, `connection` returns `FirstCleaned` of those fields in that order. |
| Resolver.ProjectUrl | scripts/get-repo-url.py:141-148 | A result is the stripped, uncleaned first `url` text and names an allowed host. Every such text is returned. |
| Resolver.ProjectUrlFallback | scripts/get-repo-url.py:141-148 | When no SCM field cleans to text and the first `url` names an allowed host, the walk returns that `url`, stripped and not cleaned, after fetching only the one POM. |
| Resolver.PomStep | scripts/get-repo-url.py:128-199 | A returned URL is non-empty. The rules apply in source order. The first SCM field that cleans to text is returned. Failing that, an allowed-host project `url` is returned stripped. Failing both: with no parent the step breaks; a Sonatype-root parent returns None; an Apache-root parent with an artifactId returns `https://github.com/apache/<artifactId>`. Any other parent is followed, with its three texts, exactly when all three have text, and otherwise the step breaks. A Follow always names such a parent. |
| Resolver.ExaminePom | scripts/get-repo-url.py:127-199 | The body of one loop round computes `PomStep` of the parsed POM. |
| Resolver.Walk | scripts/get-repo-url.py:107-203 | The parent walk over `fuel` rounds. Any URL it returns is non-empty. Resolver.WalkMissing and Resolver.WalkStep state what each round does. The rule lemmas below restate each `PomStep` rule for the walk: ScmFirst, ProjectUrlFallback, SonatypeRootStops, ApacheRootSynthesises, ParentFollowed and NoParentStops. |
| Resolver.WalkFetches | scripts/get-repo-url.py:107-117 | The walk fetches at most `fuel` POMs, and the first is the POM of the starting coordinate. |
| Resolver.RepoFetches | scripts/get-repo-url.py:101-117 | At most `max_depth` POMs are fetched. |
| Resolver.RepoUrl | scripts/get-repo-url.py:57-205 | `get_repo_url` as a function. Any URL it returns is non-empty. Its cases are stated by Resolver.NoVersionNoFetch, Resolver.ScmFirst, Resolver.ProjectUrlFallback, Resolver.SonatypeRootStops, Resolver.ApacheRootSynthesises and Resolver.SelfParentExhausts. |
| Resolver.GetRepoUrl | scripts/get-repo-url.py:57-205 | The whole lookup returns `RepoUrl` and fetches exactly the URLs in `RepoFetches`. |
| Resolver.Climb | scripts/get-repo-url.py:100-205 | The `while depth < max_depth` loop from a resolved version returns `Walk` and fetches exactly `WalkFetches` for `max(max_depth, 0)` rounds. |
| Resolver.WalkMissing | scripts/get-repo-url.py:107-126 | A round whose POM is missing or unparsable fetches that one POM and ends the walk with None. |
| Resolver.WalkStep | scripts/get-repo-url.py:128-203 | A round on a parsed POM: a return or break ends the walk after this one fetch; a complete parent continues with one unit of depth less and this POM's URL in front. |
| Resolver.WalkAdvancesOnlyOnCompleteParent | scripts/get-repo-url.py:185-195 | When a second POM is fetched, the first one parsed and had a parent with all three fields present. The walk continues from exactly that parent. |
| Resolver.NoVersionNoFetch | scripts/get-repo-url.py:68-92 | A missing or unparsable metadata document, or one with no version, gives None with no POM fetched. |
| Resolver.SonatypeRootStops | scripts/get-repo-url.py:156-162 | A POM with no SCM or project URL and the `org.sonatype.oss:oss-parent` parent gives None, with no further fetch. |
| Resolver.ApacheRootSynthesises | scripts/get-repo-url.py:165-183 | Under the `org.apache:apache` parent, the result is `https://github.com/apache/` plus the current POM's own artifactId, with no further fetch. |
| Resolver.ParentFollowed | scripts/get-repo-url.py:185-193 | With no SCM or project URL, a complete parent that is neither umbrella rule's gives the walk from that parent with one round less. The fetches are this POM followed by that walk's fetches. |
| Resolver.NoParentStops | scripts/get-repo-url.py:185-199 | With no SCM or project URL, a missing parent, or an incomplete one that no umbrella rule takes, gives None after this one fetch. |
| Resolver.ScmFirst | scripts/get-repo-url.py:128-138 | The first SCM field whose cleaned value is non-empty is the result, ahead of every other rule, and only this POM is fetched. |
| Resolver.SelfParentExhausts | scripts/get-repo-url.py:107-193 | A POM whose step follows its own coordinates is fetched `max_depth` times, and the walk gives None. Such a POM names itself as parent and has no SCM field that cleans to text, no allowed-host `url` and no umbrella parent. |
| Resolver.RepoUrlAsWritten | scripts/get-repo-url.py:57-151 | The lookup as written, where line 151 reads the unassigned name `parent`. Its outcome is a URL, None or a NameError. It has no contract of its own. The next two lemmas relate it to Resolver.RepoUrl. |
| Resolver.AsWrittenAgreesWhenItReturns | scripts/get-repo-url.py:151 | Whenever the as-written walk returns without the NameError, it returns what the corrected walk does. |
| Resolver.AsWrittenCrashesBelowApache | scripts/get-repo-url.py:151 | As written, a POM that reaches the parent rules raises NameError. The corrected walk returns the Apache GitHub URL. |
| Resolver.SplitCoordinate | scripts/get-repo-url.py:208-215 | Succeeds exactly when the argument contains `:`. It splits at the first `:`, and the parts joined by `:` give back the argument. |
| Resolver.Cli | scripts/get-repo-url.py:207-223 | The exit code is 0 or 1. |
| Resolver.CliSucceedsIffFound | scripts/get-repo-url.py:207-223 | Exit 0 happens exactly when the argument has a `:` and a URL is found, and then that URL is printed. |
| BulkLookup.ResolveArtifact | scripts/bulk-repo-lookup.py:19-85 | A bad format gives the fixed invalid record. Exit 0 gives resolved with the stripped stdout and the elapsed time. A non-zero exit gives the stripped stderr or "Repository URL not found", with the elapsed time. A timeout gives the 30 s message and 30000 ms. Any other error gives its message and 0 ms. Every failure has an empty URL. |
| BulkLookup.ColonAloneIsValid | scripts/bulk-repo-lookup.py:21-33 | `":"` passes the format check, with empty group and artifact ids. |
| BulkLookup.ValidFormatOneColon | scripts/bulk-repo-lookup.py:21-33 | The format check accepts exactly the strings with one `:`, and neither id then contains `:`. |
| BulkLookup.ReadArtifacts | scripts/bulk-repo-lookup.py:87-95 | The line loop returns `KeptLines` of the input lines. |
| BulkLookup.KeptLines | scripts/bulk-repo-lookup.py:91-94 | The stripped lines that are non-empty and do not start with `#`, in file order. It has no contract of its own. The three lemmas below state what it keeps. |
| BulkLookup.KeptLinesAppend | scripts/bulk-repo-lookup.py:91-94 | Filtering distributes over concatenation, so file order is kept. |
| BulkLookup.KeptLinesExactly | scripts/bulk-repo-lookup.py:91-94 | Every kept entry is a stripped input line, non-empty and not starting with `#`, and every such stripped line is kept. |
| BulkLookup.KeptLinesStripped | scripts/bulk-repo-lookup.py:92-93 | Kept entries are non-empty and have no whitespace at either end. |
| BulkLookup.OrderMap | scripts/bulk-repo-lookup.py:122 | The comprehension `{a: i for i, a in enumerate(artifacts)}`, in which a later index overwrites an earlier one. It has no contract of its own. Its keys and values are stated by the next two lemmas. |
| BulkLookup.OrderMapLastIndex | scripts/bulk-repo-lookup.py:122 | `artifact_order` has exactly the input artifacts as keys. Each maps to the index of its last occurrence. |
| BulkLookup.OrderMapABA | scripts/bulk-repo-lookup.py:122 | For the input `A, B, A`, `A` maps to 2, its last index, and `B` to 1. |
| BulkLookup.InsertByKey | scripts/bulk-repo-lookup.py:123 | One step of the stable sort: the record goes after every record whose key is not greater than its own. It has no contract of its own. The sort lemmas below are proved from its step lemmas. |
| BulkLookup.SortByKey | scripts/bulk-repo-lookup.py:123 | Python's stable `list.sort` by `artifact_order.get(r['artifact'], inf)`, with `inf` as key `n`. It has no contract of its own. It is stated by BulkLookup.SortByKeyFacts, BulkLookup.SortByKeyStable and BulkLookup.SortByKeyArtifacts. |
| BulkLookup.RestoreInputOrder | scripts/bulk-repo-lookup.py:121-123 | The re-sort returns the key-ordered stable sort of the completed records. |
| BulkLookup.SortByKeyFacts | scripts/bulk-repo-lookup.py:123 | The sort result is ordered by key and is a permutation of its input. |
| BulkLookup.SortByKeyStable | scripts/bulk-repo-lookup.py:123 | Records with equal keys keep their relative order, as Python's stable `list.sort` does. |
| BulkLookup.SortByKeyArtifacts | scripts/bulk-repo-lookup.py:123 | The sort keeps the multiset of artifact names. |
| BulkLookup.RestoredOrderFacts | scripts/bulk-repo-lookup.py:121-123 | The restored list is ordered by input index, is a permutation of the completed records, and is stable per index. |
| BulkLookup.DistinctInputOrderRestored | scripts/bulk-repo-lookup.py:121-123 | For pairwise-distinct inputs whose completion order is any permutation of them, the artifacts of the result are exactly the input sequence. |
| BulkLookup.DuplicateInputReordered | scripts/bulk-repo-lookup.py:121-123 | For the input `A, B, A` and completions `A0, B, A2`, the result is `B, A0, A2`: both `A` records get key 2, so the first `A` does not return to its input position. |
| BulkLookup.CountResolved | scripts/bulk-repo-lookup.py:135 | The count is at most the total, and equals it exactly when every record is resolved. |
| BulkLookup.CountsAddUp | scripts/bulk-repo-lookup.py:134-136 | resolved + unresolved == total. |
| BulkLookup.ResolutionPercent | scripts/bulk-repo-lookup.py:181-184 | `resolved*100//total` (0 with no results) lies in [0, 100]. It is 100 exactly when all are resolved, and 0 exactly when resolved*100 < total. |
| BulkLookup.PercentBounds | scripts/bulk-repo-lookup.py:213-220 | The same bounds and both equivalences for the floor quotient itself. |
| BulkLookup.Summarize | scripts/bulk-repo-lookup.py:213-220 | The resolved count is `CountResolved` of the records, and the percentage is `ResolutionPercent` of the two counts, the value printed in the summary. The counts add up, and the percentage is in range and is 100 exactly when every record is resolved. |
| MappingWorkflow.ResolvedOf | scripts/generate-mapping-workflow.py:36-40 | The records with `resolved is True`, in input order. It has no contract of its own. Its meaning is stated by MappingWorkflow.FilterPartition and MappingWorkflow.FilterAppend. |
| MappingWorkflow.UnresolvedOf | scripts/generate-mapping-workflow.py:36-40 | The other records, in input order. It is stated by the same two lemmas. |
| MappingWorkflow.FilterResolved | scripts/generate-mapping-workflow.py:26-42 | The loop returns `ResolvedOf` and `UnresolvedOf` of the records. |
| MappingWorkflow.FilterPartition | scripts/generate-mapping-workflow.py:36-40 | Each record lands in exactly one list: the multisets add up to the input. The first list holds only resolved records, the second only unresolved ones. |
| MappingWorkflow.FilterAppend | scripts/generate-mapping-workflow.py:36-40 | Both filters distribute over concatenation, so relative order is kept. |
| MappingWorkflow.ResolvedMatchesCount | scripts/generate-mapping-workflow.py:217-219 | The list sizes match the bulk report's resolved and unresolved counts. |
| MappingWorkflow.UniqueOf | scripts/generate-mapping-workflow.py:52-63 | The records whose non-empty URL is seen for the first time. It has no contract of its own. MappingWorkflow.UniqueInInputOrder states that these are the records in input order. The `UniqueUrls*`, `UniqueFirstSeen` and `UniqueDuplicatesCount` lemmas below state the rest. |
| MappingWorkflow.DuplicatesOf | scripts/generate-mapping-workflow.py:52-63 | The records whose non-empty URL was already seen. It has no contract of its own. MappingWorkflow.DuplicatesInInputOrder states that these are the records in input order. MappingWorkflow.DuplicatesCovered and MappingWorkflow.UniqueDuplicatesCount state the rest. |
| MappingWorkflow.GetUniqueRepositories | scripts/generate-mapping-workflow.py:44-65 | The seen-set loop returns `UniqueOf` and `DuplicatesOf`. |
| MappingWorkflow.UrlsOfMembers | scripts/generate-mapping-workflow.py:52-60 | The seen set is exactly the non-empty URLs of the records. |
| MappingWorkflow.UniqueUrlsDistinct | scripts/generate-mapping-workflow.py:59-61 | The unique list has pairwise-distinct URLs. |
| MappingWorkflow.UniqueUrlsCover | scripts/generate-mapping-workflow.py:56-61 | The unique list contains every non-empty URL of the input. |
| MappingWorkflow.UniqueUrlsNonEmpty | scripts/generate-mapping-workflow.py:57-58 | No unique record has an empty URL. |
| MappingWorkflow.UniqueFirstSeen | scripts/generate-mapping-workflow.py:56-61 | Each unique record is the first record in the input with its URL. |
| MappingWorkflow.DuplicatesCovered | scripts/generate-mapping-workflow.py:56-63 | Every duplicate's URL is in the unique list. Records with an empty URL are in neither list. |
| MappingWorkflow.UniqueDuplicatesCount | scripts/generate-mapping-workflow.py:56-63 | `len(unique) + len(duplicates)` is the number of records with a non-empty URL. |
| MappingWorkflow.UniqueInInputOrder | scripts/generate-mapping-workflow.py:56-61 | The unique list is `s[idx[0]], s[idx[1]], …` for strictly increasing positions `idx`. Each of these positions holds a record whose non-empty URL no earlier record has, and every such position is among them. |
| MappingWorkflow.DuplicatesInInputOrder | scripts/generate-mapping-workflow.py:56-63 | The same for the duplicate list: strictly increasing positions, exactly those whose non-empty URL an earlier record has. |
| MappingWorkflow.BuildWorkflowCommand | scripts/generate-mapping-workflow.py:67-88 | The display string built from the six f-string pieces. It has no contract of its own. MappingWorkflow.CommandFromWords and MappingWorkflow.CommandDisplaysArgv state what it is. |
| MappingWorkflow.TriggerArgv | scripts/generate-mapping-workflow.py:114-122 | The 14-word argument vector passed to `subprocess.run`. It has no contract of its own. MappingWorkflow.CommandDisplaysArgv and MappingWorkflow.CommandSplitsIntoArgv relate it to the display string. |
| MappingWorkflow.CommandDisplaysArgv | scripts/generate-mapping-workflow.py:76-88 | The displayed command is the 14-word argv that `trigger_workflow` runs, joined by spaces, with each `--field` value in double quotes. |
| MappingWorkflow.CommandFromWords | scripts/generate-mapping-workflow.py:81-86 | The command is exactly `gh workflow run <wf> --repo <repo> --ref <ref> --field slug="<id>" --field repo_url="<url>" --field coordinates="<artifact>"`. |
| MappingWorkflow.CommandSplitsIntoArgv | scripts/generate-mapping-workflow.py:114-125 | When no input contains a space, splitting the command on spaces gives back the quoted argv word for word. |
| MappingWorkflow.DelayFor | scripts/generate-mapping-workflow.py:244-246 | The per-item delay of the loop in `main`. It has no contract of its own. MappingWorkflow.TotalDelayAnnounced states its values and their sum. |
| MappingWorkflow.TotalDelayAnnounced | scripts/generate-mapping-workflow.py:239-246 | Item i is delayed by `args.delay` when i < n-1 and by 0 otherwise. The delays add up to `delay*(n-1)`, the total announced before the loop. |
| MappingWorkflow.Succeeds | scripts/generate-mapping-workflow.py:127-151 | The success flag `trigger_workflow` returns: true on a dry run, else whether `gh` exited with status 0. It has no contract of its own. MappingWorkflow.DryRunTriggersAll and MappingWorkflow.FailedIffSomeGhFailed state its effect on the loop. |
| MappingWorkflow.TriggerWorkflows | scripts/generate-mapping-workflow.py:244-264 | The loop's lists hold, in order, the records whose trigger succeeded or failed, together with their commands. The counters are their lengths. The sleeps are those of the successful real runs with a positive delay. |
| MappingWorkflow.PickPartition | scripts/generate-mapping-workflow.py:251-264 | Every unique record is counted as exactly one of triggered or failed: triggered + failed == len(unique). |
| MappingWorkflow.DryRunTriggersAll | scripts/generate-mapping-workflow.py:127-131 | A dry run triggers every record, fails none and never sleeps. |
| MappingWorkflow.SleepsOf | scripts/generate-mapping-workflow.py:127-146 | The `time.sleep` calls of the first `m` triggers. It has no contract of its own. MappingWorkflow.SleepsBounded and MappingWorkflow.DryRunTriggersAll state how many sleeps there are and how long they last. |
| MappingWorkflow.SleepsBounded | scripts/generate-mapping-workflow.py:142-144 | There are at most n-1 sleeps. When every real trigger succeeds with a positive delay, the time slept is the announced total. |
| MappingWorkflow.ExitCode | scripts/generate-mapping-workflow.py:329-345 | The code is 0 or 1. It is 1 whenever a trigger failed. With no failure it is 1 exactly when nothing was triggered although there were unique repositories. |
| MappingWorkflow.ExitCodeAfterTriggers | scripts/generate-mapping-workflow.py:329-345 | Once triggered + failed == unique, the "no workflows triggered" branch is unreachable, and the code is 1 exactly when something failed. |
| MappingWorkflow.FailedIffSomeGhFailed | scripts/generate-mapping-workflow.py:127-151 | Some trigger fails exactly when the run is real and some `gh` call failed. |
| MappingWorkflow.Process | scripts/generate-mapping-workflow.py:212-345 | `main` without printing. The totals add up, and the lists are the filter and deduplication results. The report's triggered and failed lists are the unique records whose trigger succeeded or failed, in order, and triggered + failed == unique. The exit code is 1 exactly when a real `gh` run failed. |

## Left out

- `fetch_url` (scripts/get-repo-url.py:15-26) and the network are not modelled. A fetch is a lookup in the input maps. A non-404 HTTP error, which the script lets propagate, is not distinguished from a failed fetch.
- XML parsing and namespace stripping become already-parsed datatypes. `Pom.firstUrl` stands for the first `url` element in document order (`.//url`), and `Pom.scm` for the first `scm` element.
- The `--verbose` checks and all printing to stdout and stderr are left out. Only the exit codes, printed URL and report values are kept.
- The resolver subprocess, `gh`, `time.time` and `time.sleep` are inputs. The model records the sleeps that would happen but not the waiting itself.
- The `ThreadPoolExecutor` and `as_completed` are modelled only through their result: any completion order of the records.
- `resolution_rate` and `avg_response_time_ms` (scripts/bulk-repo-lookup.py:137-142) are floating-point roundings and are not modelled. The integer rate printed by the Markdown and table outputs is.
- JSON, CSV, Markdown and table rendering are not modelled. Neither are argparse defaults, file reads and writes, `load_artifact_details`, `write_github_summary`, the `GITHUB_ACTIONS` checks or the manual-resolution text for unresolved records.
- BulkLookup.RestoreInputOrder: Python's in-place, stable `list.sort` is modelled as a functional stable insertion sort on a sequence. The model proves the properties the sort guarantees (ordered, permutation, stable), not TimSort's steps.
- BulkLookup.ReadArtifacts: file lines are given already split. Python's universal-newline splitting (`\r`, `\r\n`) is not modelled. Trailing newlines are whitespace that `strip` removes.
- MappingWorkflow.FilterResolved: records are `BulkLookup.Record`s. A JSON `resolved` value that is not a boolean, or a missing key, is not represented. Such a value is never `is True`, which matches `resolved == false`.
- MappingWorkflow.CommandSplitsIntoArgv: proved only when no input contains a space, since with spaces the displayed string is no longer a faithful argv.
- ScmUrl.CleanGitHubHttps: proved for paths without `:` or `.`. Both are characters that the replacement and `.git` rules react to. The documented `org/repo` examples are proved separately in ScmUrl.CleanExamples.
- ScmUrl.CleanGitHubSsh: proved for the same paths as ScmUrl.CleanGitHubHttps, without `:` or `.`, for the same reason.
- MappingWorkflow.TriggerWorkflows, MappingWorkflow.Succeeds: `ghOk` records only whether `gh` exited with status 0. If `subprocess.run` cannot start `gh` at all (scripts/generate-mapping-workflow.py:138), for example because `gh` is not installed, it raises `FileNotFoundError` or another `OSError`. The `except subprocess.CalledProcessError` at line 147 does not catch that, so the script stops with a traceback. The model does not represent that outcome.

## Findings

| source | as written | input that shows it | evidently intended | confidence | as-written member | corrected member |
|---|---|---|---|---|---|---|
| scripts/get-repo-url.py:151 | `if parent is not None:` reads a name that `get_repo_url` never assigns, so reaching it raises an uncaught `NameError` (only `ET.ParseError` is caught). | A POM that parses and has no SCM field or repository-host project URL, for example one whose parent is `org.apache:apache`. | `parent = root.find('parent')`, the POM's own `<parent>`, so the Sonatype and Apache rules and the parent walk run. | not executed | Resolver.AsWrittenCrashesBelowApache | Resolver.ApacheRootSynthesises |

Three more observations are stated as lemmas:

- `clean_scm_url` is not idempotent: `scm:` cleans to the empty string, and that cleans to None (ScmUrl.CleanNotIdempotent).
- Restoring input order in scripts/bulk-repo-lookup.py (lines 121-123) does not restore it when an artifact appears twice. Both copies get the key of the last occurrence, so `A, B, A` can come back as `B, A, A` (BulkLookup.DuplicateInputReordered).
- In `main` of scripts/generate-mapping-workflow.py, the "no workflows triggered" exit branch (lines 333-336) can never be taken after the trigger loop (MappingWorkflow.ExitCodeAfterTriggers).
