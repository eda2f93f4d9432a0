/**
 * `get_repo_url` and `main` of scripts/get-repo-url.py: find the version of a
 * Maven artifact in its metadata document, then walk the chain of POMs
 * (the artifact's own, then its parents') until one of them names a source
 * repository.
 *
 * Maven Central is an input: two maps from the exact URLs the script
 * fetches to what came back. A URL that is not a key stands for a fetch
 * that gave nothing (`fetch_url` returned `None`, or an empty body);
 * `Unparsable` stands for a body that `ElementTree` refused. The documents
 * themselves are already parsed: only the elements the script reads are kept.
 */
module Resolver {
  import opened Wrappers
  import opened Strings
  import opened ScmUrl

  // ---------------------------------------------------------------------
  // Parsed documents

  /** An XML element that is present; `text` is `None` when it has no text. */
  datatype Element = Element(text: Option<string>)

  /**
   * `maven-metadata.xml`: the first `<latest>` and the first `<release>` in
   * document order, and the `<version>` children of the first `<versions>`.
   */
  datatype Metadata = Metadata(latest: Option<Element>, release: Option<Element>, versions: Option<seq<Element>>)

  /** The three children of `<scm>` the script reads, as texts (`None`: absent or no text). */
  datatype Scm = Scm(developerConnection: Option<string>, url: Option<string>, connection: Option<string>)

  /** The `<groupId>`, `<artifactId>` and `<version>` children of `<parent>`, as texts. */
  datatype ParentRef = ParentRef(groupId: Option<string>, artifactId: Option<string>, version: Option<string>)

  /**
   * A POM as the walk sees it: the first `<scm>` anywhere, the text of the first
   * `<url>` anywhere in document order, the POM's own top-level `<artifactId>`
   * text, and its `<parent>`.
   */
  datatype Pom = Pom(scm: Option<Scm>, firstUrl: Option<string>, artifactId: Option<string>, parent: Option<ParentRef>)

  /** A fetched body: either parsed, or refused by the XML parser. */
  datatype Response<T> = Unparsable | Parsed(doc: T)

  /** What Maven Central answers, keyed by the URL the script builds. */
  datatype Central = Central(metadata: map<string, Response<Metadata>>, poms: map<string, Response<Pom>>)

  const CentralBase: string := "https://repo1.maven.org/maven2/"

  /** `max_depth` as `main` leaves it. */
  const DefaultMaxDepth: int := 10

  /** `group_id.replace('.', '/')` */
  function GroupPath(groupId: string): string
  {
    ReplaceAll(groupId, ".", "/")
  }

  function MetadataUrl(groupId: string, artifactId: string): string
  {
    CentralBase + GroupPath(groupId) + "/" + artifactId + "/maven-metadata.xml"
  }

  function PomUrl(groupId: string, artifactId: string, version: string): string
  {
    CentralBase + GroupPath(groupId) + "/" + artifactId + "/" + version + "/" + artifactId + "-" + version + ".pom"
  }

  /** Python's truth value of an optional text: present and non-empty. */
  predicate HasText(t: Option<string>)
  {
    t.Some? && t.value != []
  }

  /** An f-string renders a `None` version as `None`. */
  function TextOrNone(t: Option<string>): string
  {
    if t.Some? then t.value else "None"
  }

  // ---------------------------------------------------------------------
  // Version selection

  datatype VersionChoice = NoVersion | Chosen(text: Option<string>)

  /** `latest` if present, else `release`, else the last `<version>`, else nothing. */
  function SelectVersion(m: Metadata): (r: VersionChoice)
    ensures m.latest.Some? ==> r == Chosen(m.latest.value.text)
    ensures m.latest.None? && m.release.Some? ==> r == Chosen(m.release.value.text)
    ensures m.latest.None? && m.release.None? ==>
      if m.versions.Some? && m.versions.value != []
      then r == Chosen(m.versions.value[|m.versions.value| - 1].text)
      else r == NoVersion
  {
    if m.latest.Some? then Chosen(m.latest.value.text)
    else if m.release.Some? then Chosen(m.release.value.text)
    else if m.versions.Some? && |m.versions.value| > 0 then Chosen(m.versions.value[|m.versions.value| - 1].text)
    else NoVersion
  }

  /** The texts of every version-bearing element of the document. */
  function VersionTexts(m: Metadata): seq<Option<string>>
  {
    (if m.latest.Some? then [m.latest.value.text] else [])
    + (if m.release.Some? then [m.release.value.text] else [])
    + (if m.versions.Some? then ElementTexts(m.versions.value) else [])
  }

  function ElementTexts(es: seq<Element>): (ts: seq<Option<string>>)
    ensures |ts| == |es| && forall i :: 0 <= i < |es| ==> ts[i] == es[i].text
  {
    if es == [] then [] else [es[0].text] + ElementTexts(es[1..])
  }

  /**
   * The chosen version is the text of some element of the document, and there is
   * no choice exactly when the document has none of the three kinds of element.
   */
  lemma SelectVersionFromDocument(m: Metadata)
    ensures SelectVersion(m).Chosen? ==> SelectVersion(m).text in VersionTexts(m)
    ensures SelectVersion(m).NoVersion? <==> VersionTexts(m) == []
  {
    var r := SelectVersion(m);
    var l := if m.latest.Some? then [m.latest.value.text] else [];
    var e := if m.release.Some? then [m.release.value.text] else [];
    var v := if m.versions.Some? then ElementTexts(m.versions.value) else [];
    assert VersionTexts(m) == l + e + v;
    if m.latest.None? && m.release.None? && m.versions.Some? && m.versions.value != [] {
      var n := |m.versions.value|;
      assert v[n - 1] == r.text;
      assert VersionTexts(m)[n - 1] == r.text;
    }
  }

  // ---------------------------------------------------------------------
  // One POM

  /** The SCM fields in the order they are probed. */
  function ScmFields(scm: Option<Scm>): seq<Option<string>>
  {
    if scm.None? then [] else [scm.value.developerConnection, scm.value.url, scm.value.connection]
  }

  /** The first field whose text is non-empty and whose cleaned form is non-empty, cleaned. */
  function FirstCleaned(fields: seq<Option<string>>): (r: Option<string>)
    ensures r.Some? ==> r.value != []
  {
    if fields == [] then None
    else if HasText(fields[0]) && HasText(CleanScmUrl(fields[0])) then CleanScmUrl(fields[0])
    else FirstCleaned(fields[1..])
  }

  /** `FirstCleaned` is None exactly when no field cleans to something. */
  lemma {:induction false} FirstCleanedNone(fields: seq<Option<string>>)
    ensures FirstCleaned(fields).None? <==> forall i :: 0 <= i < |fields| ==> !HasText(CleanScmUrl(fields[i]))
  {
    if fields != [] && !(HasText(fields[0]) && HasText(CleanScmUrl(fields[0]))) {
      FirstCleanedNone(fields[1..]);
      assert forall i :: 1 <= i < |fields| ==> fields[i] == fields[1..][i - 1];
    }
  }

  /** Otherwise it is the cleaned value of the first field that does. */
  lemma {:induction false} FirstCleanedAt(fields: seq<Option<string>>, i: nat)
    requires i < |fields| && HasText(CleanScmUrl(fields[i]))
    requires forall j :: 0 <= j < i ==> !HasText(CleanScmUrl(fields[j]))
    ensures FirstCleaned(fields) == CleanScmUrl(fields[i])
    decreases i
  {
    if i > 0 {
      assert !HasText(CleanScmUrl(fields[0]));
      var t := fields[1..];
      assert forall j :: 0 <= j < i - 1 ==> t[j] == fields[j + 1];
      FirstCleanedAt(t, i - 1);
    }
  }

  /** The `for field in [...]` loop over `<scm>`: the first field that cleans to something. */
  method ProbeScm(scm: Option<Scm>) returns (r: Option<string>)
    ensures r == FirstCleaned(ScmFields(scm))
  {
    if scm.None? {
      return None;
    }
    var fields := ScmFields(scm);
    for i := 0 to |fields|
      invariant FirstCleaned(fields[i..]) == FirstCleaned(fields)
    {
      assert fields[i..][1..] == fields[i + 1..];
      var text := fields[i];
      if text.Some? && text.value != [] {
        var cleaned := CleanScmUrl(text);
        if cleaned.Some? && cleaned.value != [] {
          return cleaned;
        }
      }
    }
    return None;
  }

  /** The hosts whose project URL is taken as a repository URL. */
  const RepoHosts: seq<string> := ["github.com", "gitlab.com", "bitbucket.org", "sourceforge.net"]

  predicate NamesRepoHost(url: string)
  {
    exists k :: 0 <= k < |RepoHosts| && Contains(url, RepoHosts[k])
  }

  /**
   * The project-URL fallback: the first `<url>` text, stripped, when it names
   * one of the hosts; it is returned as it is, without cleaning.
   */
  function ProjectUrl(firstUrl: Option<string>): (r: Option<string>)
    ensures r.Some? ==> HasText(firstUrl) && r.value == Strip(firstUrl.value)
    ensures r.Some? ==> (NamesRepoHost(r.value) && r.value != []
      && !IsSpace(r.value[0]) && !IsSpace(r.value[|r.value| - 1]))
    ensures HasText(firstUrl) && NamesRepoHost(Strip(firstUrl.value)) ==> r.Some?
  {
    if HasText(firstUrl) && NamesRepoHost(Strip(firstUrl.value)) then Some(Strip(firstUrl.value)) else None
  }

  /** What the loop body does with one parsed POM. */
  datatype Step = Return(result: Option<string>) | Break | Follow(groupId: string, artifactId: string, version: string)

  /** The Sonatype umbrella parent: there is nothing to learn above it. */
  predicate IsSonatypeRoot(p: ParentRef)
  {
    p.groupId == Some("org.sonatype.oss") && p.artifactId == Some("oss-parent")
  }

  /** The Apache umbrella parent: the repository is named after the child. */
  predicate IsApacheRoot(p: ParentRef)
  {
    p.groupId == Some("org.apache") && p.artifactId == Some("apache")
  }

  /** All three of the parent's `groupId`, `artifactId` and `version` have text. */
  predicate CompleteParent(p: ParentRef)
  {
    HasText(p.groupId) && HasText(p.artifactId) && HasText(p.version)
  }

  function ApacheGitHub(projectName: string): string
  {
    "https://github.com/apache/" + projectName
  }

  /**
   * Lines 128-199 on one parsed POM, with `parent` read as the POM's
   * `<parent>` element: SCM fields, then the project URL, then the two
   * umbrella parents, then a complete parent to follow.
   */
  function PomStep(pom: Pom): (r: Step)
    ensures r.Return? && r.result.Some? ==> r.result.value != []
    ensures r.Follow? ==> (pom.parent.Some? && !IsSonatypeRoot(pom.parent.value)
      && pom.parent.value.groupId == Some(r.groupId) && r.groupId != []
      && pom.parent.value.artifactId == Some(r.artifactId) && r.artifactId != []
      && pom.parent.value.version == Some(r.version) && r.version != [])
    ensures r == Break ==> FirstCleaned(ScmFields(pom.scm)).None? && ProjectUrl(pom.firstUrl).None?
    ensures FirstCleaned(ScmFields(pom.scm)).Some? ==> r == Return(FirstCleaned(ScmFields(pom.scm)))
    ensures FirstCleaned(ScmFields(pom.scm)).None? && ProjectUrl(pom.firstUrl).Some? ==>
      r == Return(ProjectUrl(pom.firstUrl))
    ensures (FirstCleaned(ScmFields(pom.scm)).None? && ProjectUrl(pom.firstUrl).None?
      && pom.parent.Some? && IsSonatypeRoot(pom.parent.value)) ==> r == Return(None)
    ensures (FirstCleaned(ScmFields(pom.scm)).None? && ProjectUrl(pom.firstUrl).None?
      && pom.parent.Some? && IsApacheRoot(pom.parent.value) && HasText(pom.artifactId)) ==>
      r == Return(Some(ApacheGitHub(pom.artifactId.value)))
    ensures (FirstCleaned(ScmFields(pom.scm)).None? && ProjectUrl(pom.firstUrl).None? && pom.parent.None?) ==> r == Break
    ensures (FirstCleaned(ScmFields(pom.scm)).None? && ProjectUrl(pom.firstUrl).None? && pom.parent.Some?
      && !IsSonatypeRoot(pom.parent.value) && !(IsApacheRoot(pom.parent.value) && HasText(pom.artifactId))) ==>
      r == (if CompleteParent(pom.parent.value)
        then Follow(pom.parent.value.groupId.value, pom.parent.value.artifactId.value, pom.parent.value.version.value)
        else Break)
  {
    var scmUrl := FirstCleaned(ScmFields(pom.scm));
    if scmUrl.Some? then Return(scmUrl)
    else if ProjectUrl(pom.firstUrl).Some? then Return(ProjectUrl(pom.firstUrl))
    else if pom.parent.None? then Break
    else
      var p := pom.parent.value;
      if IsSonatypeRoot(p) then Return(None)
      else if IsApacheRoot(p) && HasText(pom.artifactId) then Return(Some(ApacheGitHub(pom.artifactId.value)))
      else if CompleteParent(p) then Follow(p.groupId.value, p.artifactId.value, p.version.value)
      else Break
  }

  // ---------------------------------------------------------------------
  // The chain walk

  /** The loop bound: `while depth < max_depth` runs no round for a bound of zero or less. */
  function Fuel(maxDepth: int): nat
  {
    if maxDepth > 0 then maxDepth else 0
  }

  /** The answer of the walk that starts at `(g, a, v)` with `fuel` rounds left. */
  function Walk(c: Central, g: string, a: string, v: string, fuel: nat): (r: Option<string>)
    ensures r.Some? ==> r.value != []
    decreases fuel
  {
    if fuel == 0 then None
    else
      var url := PomUrl(g, a, v);
      if url !in c.poms || c.poms[url].Unparsable? then None
      else match PomStep(c.poms[url].doc)
        case Return(x) => x
        case Break => None
        case Follow(pg, pa, pv) => Walk(c, pg, pa, pv, fuel - 1)
  }

  /** The POM URLs the same walk fetches, in order. */
  function WalkFetches(c: Central, g: string, a: string, v: string, fuel: nat): (t: seq<string>)
    ensures |t| <= fuel
    ensures fuel > 0 ==> |t| >= 1 && t[0] == PomUrl(g, a, v)
    decreases fuel
  {
    if fuel == 0 then []
    else
      var url := PomUrl(g, a, v);
      if url !in c.poms || c.poms[url].Unparsable? then [url]
      else match PomStep(c.poms[url].doc)
        case Follow(pg, pa, pv) => [url] + WalkFetches(c, pg, pa, pv, fuel - 1)
        case _ => [url]
  }

  /** `get_repo_url(group_id, artifact_id, max_depth)` */
  function RepoUrl(c: Central, groupId: string, artifactId: string, maxDepth: int): (r: Option<string>)
    ensures r.Some? ==> r.value != []
  {
    var mu := MetadataUrl(groupId, artifactId);
    if mu !in c.metadata || c.metadata[mu].Unparsable? then None
    else match SelectVersion(c.metadata[mu].doc)
      case NoVersion => None
      case Chosen(t) => Walk(c, groupId, artifactId, TextOrNone(t), Fuel(maxDepth))
  }

  /** The POM URLs `get_repo_url` fetches, in order. */
  function RepoFetches(c: Central, groupId: string, artifactId: string, maxDepth: int): (t: seq<string>)
    ensures |t| <= Fuel(maxDepth)
  {
    var mu := MetadataUrl(groupId, artifactId);
    if mu !in c.metadata || c.metadata[mu].Unparsable? then []
    else match SelectVersion(c.metadata[mu].doc)
      case NoVersion => []
      case Chosen(t) => WalkFetches(c, groupId, artifactId, TextOrNone(t), Fuel(maxDepth))
  }

  /** The body of the loop on one parsed POM, lines 128-199 (with the `<parent>` element for `parent`). */
  method ExaminePom(pom: Pom) returns (step: Step)
    ensures step == PomStep(pom)
  {
    var scmUrl := ProbeScm(pom.scm);
    if scmUrl.Some? {
      return Return(scmUrl);
    }
    if pom.firstUrl.Some? && pom.firstUrl.value != [] {
      var url := Strip(pom.firstUrl.value);
      if NamesRepoHost(url) {
        return Return(Some(url));
      }
    }
    if pom.parent.None? {
      return Break;
    }
    var parent := pom.parent.value;
    if IsSonatypeRoot(parent) {
      return Return(None);
    }
    if IsApacheRoot(parent) && pom.artifactId.Some? && pom.artifactId.value != [] {
      return Return(Some(ApacheGitHub(pom.artifactId.value)));
    }
    if HasText(parent.groupId) && HasText(parent.artifactId) && HasText(parent.version) {
      return Follow(parent.groupId.value, parent.artifactId.value, parent.version.value);
    }
    return Break;
  }

  /**
   * `get_repo_url`: look up the version to start from, then climb the POM
   * chain. Besides the answer it reports every POM URL it fetched.
   */
  method GetRepoUrl(c: Central, groupId: string, artifactId: string, maxDepth: int)
    returns (r: Option<string>, fetched: seq<string>)
    ensures r == RepoUrl(c, groupId, artifactId, maxDepth)
    ensures fetched == RepoFetches(c, groupId, artifactId, maxDepth)
  {
    var metadataUrl := MetadataUrl(groupId, artifactId);
    if metadataUrl !in c.metadata || c.metadata[metadataUrl].Unparsable? {
      return None, [];
    }
    var choice := SelectVersion(c.metadata[metadataUrl].doc);
    if choice.NoVersion? {
      return None, [];
    }
    r, fetched := Climb(c, groupId, artifactId, TextOrNone(choice.text), maxDepth);
  }

  /**
   * The script's own loop: `current_group`, `current_artifact`, `current_version`
   * and `depth` are updated round by round until a `return` or `break`.
   */
  method Climb(c: Central, groupId: string, artifactId: string, version: string, maxDepth: int)
    returns (r: Option<string>, fetched: seq<string>)
    ensures r == Walk(c, groupId, artifactId, version, Fuel(maxDepth))
    ensures fetched == WalkFetches(c, groupId, artifactId, version, Fuel(maxDepth))
  {
    fetched := [];
    ghost var fuel := Fuel(maxDepth);
    var currentGroup, currentArtifact, currentVersion := groupId, artifactId, version;
    var depth := 0;
    while depth < maxDepth
      invariant 0 <= depth <= fuel
      invariant Walk(c, currentGroup, currentArtifact, currentVersion, fuel - depth)
        == Walk(c, groupId, artifactId, version, fuel)
      invariant fetched + WalkFetches(c, currentGroup, currentArtifact, currentVersion, fuel - depth)
        == WalkFetches(c, groupId, artifactId, version, fuel)
      decreases maxDepth - depth
    {
      var pomUrl := PomUrl(currentGroup, currentArtifact, currentVersion);
      ghost var before := fetched;
      fetched := fetched + [pomUrl];
      if pomUrl !in c.poms || c.poms[pomUrl].Unparsable? {
        WalkMissing(c, currentGroup, currentArtifact, currentVersion, fuel - depth);
        break;
      }
      var step := ExaminePom(c.poms[pomUrl].doc);
      WalkStep(c, currentGroup, currentArtifact, currentVersion, fuel - depth, step);
      match step {
        case Return(x) =>
          return x, fetched;
        case Break =>
          break;
        case Follow(parentGroup, parentArtifact, parentVersion) =>
          ConcatAssoc(before, [pomUrl], WalkFetches(c, parentGroup, parentArtifact, parentVersion, fuel - depth - 1));
          currentGroup, currentArtifact, currentVersion := parentGroup, parentArtifact, parentVersion;
          depth := depth + 1;
      }
    }
    return None, fetched;
  }

  // ---------------------------------------------------------------------
  // Properties of the walk

  /** A round whose POM is missing or unparsable ends the walk after fetching it. */
  lemma WalkMissing(c: Central, g: string, a: string, v: string, fuel: nat)
    requires fuel > 0 && (PomUrl(g, a, v) !in c.poms || c.poms[PomUrl(g, a, v)].Unparsable?)
    ensures Walk(c, g, a, v, fuel) == None
    ensures WalkFetches(c, g, a, v, fuel) == [PomUrl(g, a, v)]
  {
  }

  /** A round on a parsed POM does what `PomStep` says. */
  lemma WalkStep(c: Central, g: string, a: string, v: string, fuel: nat, step: Step)
    requires fuel > 0 && PomUrl(g, a, v) in c.poms && c.poms[PomUrl(g, a, v)].Parsed?
    requires step == PomStep(c.poms[PomUrl(g, a, v)].doc)
    ensures !step.Follow? ==> WalkFetches(c, g, a, v, fuel) == [PomUrl(g, a, v)]
    ensures step.Return? ==> Walk(c, g, a, v, fuel) == step.result
    ensures step.Break? ==> Walk(c, g, a, v, fuel) == None
    ensures step.Follow? ==> Walk(c, g, a, v, fuel) == Walk(c, step.groupId, step.artifactId, step.version, fuel - 1)
    ensures step.Follow? ==> (WalkFetches(c, g, a, v, fuel)
      == [PomUrl(g, a, v)] + WalkFetches(c, step.groupId, step.artifactId, step.version, fuel - 1))
  {
  }

  /** Every round but the last one advanced to a complete parent, whose texts it used as they are. */
  lemma WalkAdvancesOnlyOnCompleteParent(c: Central, g: string, a: string, v: string, fuel: nat)
    requires |WalkFetches(c, g, a, v, fuel)| >= 2
    ensures var url := PomUrl(g, a, v);
      && url in c.poms && c.poms[url].Parsed?
      && var p := c.poms[url].doc.parent;
      && p.Some? && HasText(p.value.groupId) && HasText(p.value.artifactId) && HasText(p.value.version)
      && WalkFetches(c, g, a, v, fuel)
        == [url] + WalkFetches(c, p.value.groupId.value, p.value.artifactId.value, p.value.version.value, fuel - 1)
      && Walk(c, g, a, v, fuel)
        == Walk(c, p.value.groupId.value, p.value.artifactId.value, p.value.version.value, fuel - 1)
  {
  }

  /** A missing or unparsable metadata document, or one without a version, fetches no POM. */
  lemma NoVersionNoFetch(c: Central, groupId: string, artifactId: string, maxDepth: int)
    requires var mu := MetadataUrl(groupId, artifactId);
      mu !in c.metadata || c.metadata[mu].Unparsable? || SelectVersion(c.metadata[mu].doc).NoVersion?
    ensures RepoUrl(c, groupId, artifactId, maxDepth) == None
    ensures RepoFetches(c, groupId, artifactId, maxDepth) == []
  {
  }

  /**
   * Without a usable SCM field, a project URL that names a repository host is
   * the answer, stripped but not cleaned, and nothing more is fetched.
   */
  lemma ProjectUrlFallback(c: Central, g: string, a: string, v: string, fuel: nat, pom: Pom)
    requires fuel > 0 && PomUrl(g, a, v) in c.poms && c.poms[PomUrl(g, a, v)] == Parsed(pom)
    requires FirstCleaned(ScmFields(pom.scm)).None? && ProjectUrl(pom.firstUrl).Some?
    ensures Walk(c, g, a, v, fuel) == Some(Strip(pom.firstUrl.value))
    ensures WalkFetches(c, g, a, v, fuel) == [PomUrl(g, a, v)]
  {
  }

  /**
   * Without an answer from this POM, a complete parent other than the two
   * umbrella parents is where the walk goes on, with one round less.
   */
  lemma ParentFollowed(c: Central, g: string, a: string, v: string, fuel: nat, pom: Pom)
    requires fuel > 0 && PomUrl(g, a, v) in c.poms && c.poms[PomUrl(g, a, v)] == Parsed(pom)
    requires FirstCleaned(ScmFields(pom.scm)).None? && ProjectUrl(pom.firstUrl).None?
    requires pom.parent.Some? && !IsSonatypeRoot(pom.parent.value)
    requires !(IsApacheRoot(pom.parent.value) && HasText(pom.artifactId)) && CompleteParent(pom.parent.value)
    ensures var p := pom.parent.value;
      Walk(c, g, a, v, fuel) == Walk(c, p.groupId.value, p.artifactId.value, p.version.value, fuel - 1)
    ensures var p := pom.parent.value;
      WalkFetches(c, g, a, v, fuel)
        == [PomUrl(g, a, v)] + WalkFetches(c, p.groupId.value, p.artifactId.value, p.version.value, fuel - 1)
  {
  }

  /**
   * Without an answer from this POM, a missing parent, or an incomplete one
   * other than the two umbrella parents, ends the walk with no URL.
   */
  lemma NoParentStops(c: Central, g: string, a: string, v: string, fuel: nat, pom: Pom)
    requires fuel > 0 && PomUrl(g, a, v) in c.poms && c.poms[PomUrl(g, a, v)] == Parsed(pom)
    requires FirstCleaned(ScmFields(pom.scm)).None? && ProjectUrl(pom.firstUrl).None?
    requires pom.parent.None? || (!IsSonatypeRoot(pom.parent.value)
      && !(IsApacheRoot(pom.parent.value) && HasText(pom.artifactId)) && !CompleteParent(pom.parent.value))
    ensures Walk(c, g, a, v, fuel) == None
    ensures WalkFetches(c, g, a, v, fuel) == [PomUrl(g, a, v)]
  {
  }

  /** Below the Sonatype parent the walk gives up after this one POM. */
  lemma SonatypeRootStops(c: Central, g: string, a: string, v: string, fuel: nat, pom: Pom)
    requires fuel > 0 && PomUrl(g, a, v) in c.poms && c.poms[PomUrl(g, a, v)] == Parsed(pom)
    requires FirstCleaned(ScmFields(pom.scm)).None? && ProjectUrl(pom.firstUrl).None?
    requires pom.parent.Some? && IsSonatypeRoot(pom.parent.value)
    ensures Walk(c, g, a, v, fuel) == None
    ensures WalkFetches(c, g, a, v, fuel) == [PomUrl(g, a, v)]
  {
  }

  /**
   * Below the Apache parent the answer is the GitHub URL named after the
   * current POM's own `artifactId`, whatever the parent says besides its
   * group and artifact, and nothing more is fetched.
   */
  lemma ApacheRootSynthesises(c: Central, g: string, a: string, v: string, fuel: nat, pom: Pom)
    requires fuel > 0 && PomUrl(g, a, v) in c.poms && c.poms[PomUrl(g, a, v)] == Parsed(pom)
    requires FirstCleaned(ScmFields(pom.scm)).None? && ProjectUrl(pom.firstUrl).None?
    requires pom.parent.Some? && IsApacheRoot(pom.parent.value) && HasText(pom.artifactId)
    ensures Walk(c, g, a, v, fuel) == Some("https://github.com/apache/" + pom.artifactId.value)
    ensures WalkFetches(c, g, a, v, fuel) == [PomUrl(g, a, v)]
  {
  }

  /** A usable SCM field wins over everything after it, in probe order. */
  lemma ScmFirst(c: Central, g: string, a: string, v: string, fuel: nat, pom: Pom, i: nat)
    requires fuel > 0 && PomUrl(g, a, v) in c.poms && c.poms[PomUrl(g, a, v)] == Parsed(pom)
    requires i < |ScmFields(pom.scm)| && HasText(CleanScmUrl(ScmFields(pom.scm)[i]))
    requires forall j :: 0 <= j < i ==> !HasText(CleanScmUrl(ScmFields(pom.scm)[j]))
    ensures Walk(c, g, a, v, fuel) == CleanScmUrl(ScmFields(pom.scm)[i])
    ensures WalkFetches(c, g, a, v, fuel) == [PomUrl(g, a, v)]
  {
    FirstCleanedAt(ScmFields(pom.scm), i);
  }

  /**
   * A POM that names itself as its parent (a cycle of length one) is fetched
   * once per round: the walk ends with no answer after exactly `fuel` fetches.
   */
  lemma {:induction false} SelfParentExhausts(c: Central, g: string, a: string, v: string, fuel: nat, pom: Pom)
    requires PomUrl(g, a, v) in c.poms && c.poms[PomUrl(g, a, v)] == Parsed(pom)
    requires PomStep(pom) == Follow(g, a, v)
    ensures Walk(c, g, a, v, fuel) == None
    ensures WalkFetches(c, g, a, v, fuel) == seq(fuel, _ => PomUrl(g, a, v))
    decreases fuel
  {
    if fuel > 0 {
      SelfParentExhausts(c, g, a, v, fuel - 1, pom);
      assert [PomUrl(g, a, v)] + seq(fuel - 1, _ => PomUrl(g, a, v)) == seq(fuel, _ => PomUrl(g, a, v));
    }
  }

  // ---------------------------------------------------------------------
  // The script as written

  /** `get_repo_url` as written can also die with an uncaught `NameError`. */
  datatype Outcome = Returned(result: Option<string>) | NameError

  /**
   * `get_repo_url` as written: `parent` is never assigned, so any POM that
   * gets past the SCM and project-URL checks raises `NameError` at the
   * `if parent is not None` test; at most one POM is ever fetched.
   */
  function RepoUrlAsWritten(c: Central, groupId: string, artifactId: string, maxDepth: int): Outcome
  {
    var mu := MetadataUrl(groupId, artifactId);
    if mu !in c.metadata || c.metadata[mu].Unparsable? then Returned(None)
    else match SelectVersion(c.metadata[mu].doc)
      case NoVersion => Returned(None)
      case Chosen(t) =>
        var url := PomUrl(groupId, artifactId, TextOrNone(t));
        if maxDepth <= 0 || url !in c.poms || c.poms[url].Unparsable? then Returned(None)
        else
          var pom := c.poms[url].doc;
          var scmUrl := FirstCleaned(ScmFields(pom.scm));
          if scmUrl.Some? then Returned(scmUrl)
          else if ProjectUrl(pom.firstUrl).Some? then Returned(ProjectUrl(pom.firstUrl))
          else NameError
  }

  /** Whenever the script as written returns, the corrected walk returns the same. */
  lemma AsWrittenAgreesWhenItReturns(c: Central, groupId: string, artifactId: string, maxDepth: int)
    ensures RepoUrlAsWritten(c, groupId, artifactId, maxDepth).Returned? ==>
      RepoUrlAsWritten(c, groupId, artifactId, maxDepth).result == RepoUrl(c, groupId, artifactId, maxDepth)
  {
  }

  /**
   * The discrepancy: an artifact whose POM has neither a usable `<scm>` nor a
   * hosted `<url>` but has the Apache parent crashes the script as written,
   * while the corrected walk answers with the Apache GitHub URL.
   */
  lemma AsWrittenCrashesBelowApache(c: Central, groupId: string, artifactId: string, maxDepth: int, pom: Pom)
    requires var mu := MetadataUrl(groupId, artifactId);
      && mu in c.metadata && c.metadata[mu].Parsed? && SelectVersion(c.metadata[mu].doc).Chosen?
      && var url := PomUrl(groupId, artifactId, TextOrNone(SelectVersion(c.metadata[mu].doc).text));
      && url in c.poms && c.poms[url] == Parsed(pom)
    requires maxDepth > 0
    requires FirstCleaned(ScmFields(pom.scm)).None? && ProjectUrl(pom.firstUrl).None?
    requires pom.parent.Some? && IsApacheRoot(pom.parent.value) && HasText(pom.artifactId)
    ensures RepoUrlAsWritten(c, groupId, artifactId, maxDepth) == NameError
    ensures RepoUrl(c, groupId, artifactId, maxDepth) == Some("https://github.com/apache/" + pom.artifactId.value)
  {
  }

  // ---------------------------------------------------------------------
  // The command line

  /** `':' in arg` followed by `arg.split(':', 1)`. */
  function SplitCoordinate(arg: string): (r: Option<(string, string)>)
    ensures r.Some? <==> ':' in arg
    ensures r.Some? ==> r.value.0 + [':'] + r.value.1 == arg && ':' !in r.value.0
  {
    if ':' !in arg then None
    else
      var i := IndexOf(arg, ':');
      assert arg[..i] + [':'] + arg[i + 1..] == arg;
      Some((arg[..i], arg[i + 1..]))
  }

  /** The exit status and the URL printed on standard output, if any. */
  datatype CliOutcome = CliOutcome(exitCode: int, printed: Option<string>)

  /** `main` on the arguments after the program name (the coordinate first). */
  function Cli(c: Central, args: seq<string>): (r: CliOutcome)
    ensures r.exitCode == 0 || r.exitCode == 1
  {
    if |args| < 1 then CliOutcome(1, None)
    else match SplitCoordinate(args[0])
      case None => CliOutcome(1, None)
      case Some(coordinate) =>
        var repoUrl := RepoUrl(c, coordinate.0, coordinate.1, DefaultMaxDepth);
        if repoUrl.Some? && repoUrl.value != [] then CliOutcome(0, repoUrl) else CliOutcome(1, None)
  }

  /**
   * `main` succeeds exactly when the first argument has a colon and the
   * resolver finds a URL for the text before and after the first colon; it
   * then prints that URL.
   */
  lemma CliSucceedsIffFound(c: Central, args: seq<string>)
    ensures Cli(c, args).exitCode == 0 <==>
      |args| >= 1 && ':' in args[0]
      && RepoUrl(c, SplitCoordinate(args[0]).value.0, SplitCoordinate(args[0]).value.1, DefaultMaxDepth).Some?
    ensures Cli(c, args).exitCode == 0 ==>
      Cli(c, args).printed == RepoUrl(c, SplitCoordinate(args[0]).value.0, SplitCoordinate(args[0]).value.1, DefaultMaxDepth)
  {
  }
}
