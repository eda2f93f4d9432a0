/**
 * The sequential parts of scripts/bulk-repo-lookup.py: reading the artifact
 * list, turning one resolver run into a result record, putting the records
 * that come back in completion order into input order, and the summary counts.
 *
 * The resolver runs themselves (a subprocess per artifact on a thread pool)
 * are inputs: the outcome of each run, and the order in which the runs
 * completed, are given.
 */
module BulkLookup {
  import opened Wrappers
  import opened Strings

  // ---------------------------------------------------------------------
  // One artifact

  /** One entry of the `artifacts` list of the report. */
  datatype Record = Record(
    artifact: string,
    groupId: string,
    artifactId: string,
    resolved: bool,
    repositoryUrl: string,
    error: Option<string>,
    responseTimeMs: int)

  /** What `subprocess.run` did: exited (with the elapsed wall-clock time), timed out, or failed. */
  datatype RunOutcome =
    | Exit(returnCode: int, stdout: string, stderr: string, elapsedMs: int)
    | Timeout
    | OtherError(message: string)

  const InvalidFormat: string := "Invalid artifact format"
  const NotFound: string := "Repository URL not found"
  const TimedOut: string := "Resolution timeout (30s)"
  const TimeoutMs: int := 30000

  /** `len(artifact.split(':')) == 2`: exactly one colon; either side may be empty. */
  predicate ValidFormat(artifact: string)
  {
    |Split(artifact, ':')| == 2
  }

  /**
   * `resolve_artifact`: an artifact with other than one colon is refused
   * before any run (so `run` is not consulted); otherwise the run's outcome
   * decides the record.
   */
  function ResolveArtifact(artifact: string, run: RunOutcome): (r: Record)
    ensures r.artifact == artifact
    ensures r.resolved <==> ValidFormat(artifact) && run.Exit? && run.returnCode == 0
    ensures r.resolved ==> r.error.None? && r.repositoryUrl == Strip(run.stdout) && r.responseTimeMs == run.elapsedMs
    ensures !r.resolved ==> r.repositoryUrl == [] && r.error.Some?
    ensures !ValidFormat(artifact) ==>
      r == Record(artifact, [], [], false, [], Some(InvalidFormat), 0)
    ensures ValidFormat(artifact) ==> r.groupId + [':'] + r.artifactId == artifact && ':' !in r.groupId
    ensures ValidFormat(artifact) && run.Exit? && run.returnCode != 0 ==>
      r.error == Some(if run.stderr != [] then Strip(run.stderr) else NotFound)
      && r.responseTimeMs == run.elapsedMs
    ensures ValidFormat(artifact) && run.Timeout? ==> r.error == Some(TimedOut) && r.responseTimeMs == TimeoutMs
    ensures ValidFormat(artifact) && run.OtherError? ==> r.error == Some(run.message) && r.responseTimeMs == 0
  {
    var parts := Split(artifact, ':');
    if |parts| != 2 then Record(artifact, [], [], false, [], Some(InvalidFormat), 0)
    else
      var groupId, artifactId := parts[0], parts[1];
      SplitParts(artifact, ':');
      SplitJoin(artifact, ':');
      assert Join(parts, ':') == groupId + [':'] + artifactId;
      match run
        case Exit(code, out, err, elapsed) =>
          if code == 0 then Record(artifact, groupId, artifactId, true, Strip(out), None, elapsed)
          else
            var message := if err != [] then Strip(err) else NotFound;
            Record(artifact, groupId, artifactId, false, [], Some(message), elapsed)
        case Timeout => Record(artifact, groupId, artifactId, false, [], Some(TimedOut), TimeoutMs)
        case OtherError(message) => Record(artifact, groupId, artifactId, false, [], Some(message), 0)
  }

  /** `":"` is a valid artifact with two empty ids. */
  lemma ColonAloneIsValid(run: RunOutcome)
    ensures ValidFormat(":")
    ensures ResolveArtifact(":", run).groupId == [] && ResolveArtifact(":", run).artifactId == []
  {
    assert Split(":", ':') == [[], []] by {
      assert ":"[1..] == [];
    }
  }

  /** A valid artifact has exactly one colon, and its ids are the text on either side of it. */
  lemma ValidFormatOneColon(artifact: string, run: RunOutcome)
    ensures ValidFormat(artifact) <==> Count(artifact, ':') == 1
    ensures ValidFormat(artifact) ==>
      var r := ResolveArtifact(artifact, run);
      ':' !in r.groupId && ':' !in r.artifactId
  {
    SplitParts(artifact, ':');
    if ValidFormat(artifact) {
      var parts := Split(artifact, ':');
      assert ':' !in parts[0] && ':' !in parts[1];
    }
  }

  // ---------------------------------------------------------------------
  // The input file

  /** A stripped line is kept when it is non-empty and not a `#` comment. */
  predicate KeepLine(line: string)
  {
    line != [] && !StartsWith(line, "#")
  }

  /** The artifacts of a file whose lines (as text-mode iteration yields them) are `lines`. */
  function KeptLines(lines: seq<string>): seq<string>
  {
    if lines == [] then []
    else (if KeepLine(Strip(lines[0])) then [Strip(lines[0])] else []) + KeptLines(lines[1..])
  }

  /** `read_artifacts`: one pass over the lines, appending each kept one. */
  method ReadArtifacts(lines: seq<string>) returns (artifacts: seq<string>)
    ensures artifacts == KeptLines(lines)
  {
    artifacts := [];
    for i := 0 to |lines|
      invariant artifacts == KeptLines(lines[..i])
    {
      var line := Strip(lines[i]);
      KeptLinesAppend(lines[..i], [lines[i]]);
      assert lines[..i + 1] == lines[..i] + [lines[i]];
      if line != [] && !StartsWith(line, "#") {
        artifacts := artifacts + [line];
      }
    }
    assert lines[..|lines|] == lines;
  }

  /** Reading two runs of lines one after the other keeps their artifacts in file order. */
  lemma {:induction false} KeptLinesAppend(a: seq<string>, b: seq<string>)
    ensures KeptLines(a + b) == KeptLines(a) + KeptLines(b)
  {
    if a != [] {
      assert (a + b)[0] == a[0] && (a + b)[1..] == a[1..] + b;
      KeptLinesAppend(a[1..], b);
    } else {
      assert a + b == b;
    }
  }

  /**
   * Exactly the stripped lines that are non-empty and not comments: every
   * artifact is such a line, and every such line is an artifact.
   */
  lemma {:induction false} KeptLinesExactly(lines: seq<string>)
    ensures forall x :: x in KeptLines(lines) ==> KeepLine(x) && exists i :: 0 <= i < |lines| && Strip(lines[i]) == x
    ensures forall i :: 0 <= i < |lines| && KeepLine(Strip(lines[i])) ==> Strip(lines[i]) in KeptLines(lines)
  {
    if lines != [] {
      KeptLinesExactly(lines[1..]);
      forall x | x in KeptLines(lines)
        ensures KeepLine(x) && exists i :: 0 <= i < |lines| && Strip(lines[i]) == x
      {
        if x in KeptLines(lines[1..]) {
          var i :| 0 <= i < |lines[1..]| && Strip(lines[1..][i]) == x;
          assert Strip(lines[i + 1]) == x;
        } else {
          assert Strip(lines[0]) == x;
        }
      }
      forall i | 0 <= i < |lines| && KeepLine(Strip(lines[i]))
        ensures Strip(lines[i]) in KeptLines(lines)
      {
        if i > 0 {
          assert lines[1..][i - 1] == lines[i];
        }
      }
    }
  }

  /** Every artifact read is already stripped and non-empty. */
  lemma KeptLinesStripped(lines: seq<string>)
    ensures forall x :: x in KeptLines(lines) ==> x != [] && !IsSpace(x[0]) && !IsSpace(x[|x| - 1])
  {
    KeptLinesExactly(lines);
  }

  // ---------------------------------------------------------------------
  // Back into input order

  /** `{a: i for i, a in enumerate(artifacts)}`: a later duplicate overwrites an earlier one. */
  function OrderMap(artifacts: seq<string>): map<string, nat>
  {
    if artifacts == [] then map[]
    else OrderMap(artifacts[..|artifacts| - 1])[artifacts[|artifacts| - 1] := |artifacts| - 1]
  }

  /** Every artifact is mapped to the index of its last occurrence, and nothing else is mapped. */
  lemma {:induction false} OrderMapLastIndex(artifacts: seq<string>)
    ensures forall a :: a in OrderMap(artifacts) <==> a in artifacts
    ensures forall a :: a in OrderMap(artifacts) ==>
      OrderMap(artifacts)[a] < |artifacts| && artifacts[OrderMap(artifacts)[a]] == a
      && forall j :: OrderMap(artifacts)[a] < j < |artifacts| ==> artifacts[j] != a
    decreases |artifacts|
  {
    if artifacts != [] {
      var n := |artifacts|;
      var prefix := artifacts[..n - 1];
      OrderMapLastIndex(prefix);
      assert artifacts == prefix + [artifacts[n - 1]];
      forall a
        ensures a in OrderMap(artifacts) <==> a in artifacts
      {
        if a in prefix {
          var k :| 0 <= k < n - 1 && prefix[k] == a;
          assert artifacts[k] == a;
        }
      }
    }
  }

  /** The sort key: the input index, or past every index for an artifact not in the input. */
  function KeyOf(order: map<string, nat>, n: nat, r: Record): nat
  {
    if r.artifact in order then order[r.artifact] else n
  }

  predicate SortedByKey(order: map<string, nat>, n: nat, s: seq<Record>)
  {
    forall i, j :: 0 <= i < j < |s| ==> KeyOf(order, n, s[i]) <= KeyOf(order, n, s[j])
  }

  /** Put `x` after every element whose key is not greater than its own. */
  function InsertByKey(order: map<string, nat>, n: nat, s: seq<Record>, x: Record): seq<Record>
  {
    if s == [] then [x]
    else if KeyOf(order, n, x) < KeyOf(order, n, s[0]) then [x] + s
    else [s[0]] + InsertByKey(order, n, s[1..], x)
  }

  /**
   * `list.sort(key=...)`, which is stable: each element is inserted into the
   * sorted front part after the elements with an equal key.
   */
  function SortByKey(order: map<string, nat>, n: nat, s: seq<Record>): seq<Record>
  {
    if s == [] then []
    else InsertByKey(order, n, SortByKey(order, n, s[..|s| - 1]), s[|s| - 1])
  }

  /** The inserted sequence holds exactly the old elements and `x`. */
  lemma {:induction false} InsertByKeyElements(order: map<string, nat>, n: nat, s: seq<Record>, x: Record)
    ensures multiset(InsertByKey(order, n, s, x)) == multiset(s) + multiset{x}
  {
    if s != [] {
      assert s == [s[0]] + s[1..];
      if KeyOf(order, n, x) >= KeyOf(order, n, s[0]) {
        InsertByKeyElements(order, n, s[1..], x);
      }
    }
  }

  /** A lower bound on every key survives the insertion of an element above it. */
  lemma {:induction false} InsertByKeyBound(order: map<string, nat>, n: nat, s: seq<Record>, x: Record, b: nat)
    requires forall i :: 0 <= i < |s| ==> b <= KeyOf(order, n, s[i])
    requires b <= KeyOf(order, n, x)
    ensures forall i :: 0 <= i < |InsertByKey(order, n, s, x)| ==> b <= KeyOf(order, n, InsertByKey(order, n, s, x)[i])
  {
    if s != [] && KeyOf(order, n, x) >= KeyOf(order, n, s[0]) {
      InsertByKeyBound(order, n, s[1..], x, b);
    }
  }

  /** Inserting into a sorted sequence keeps it sorted. */
  lemma {:induction false} InsertByKeySorted(order: map<string, nat>, n: nat, s: seq<Record>, x: Record)
    requires SortedByKey(order, n, s)
    ensures SortedByKey(order, n, InsertByKey(order, n, s, x))
  {
    if s != [] && KeyOf(order, n, x) >= KeyOf(order, n, s[0]) {
      var rest := s[1..];
      assert SortedByKey(order, n, rest);
      InsertByKeySorted(order, n, rest, x);
      InsertByKeyBound(order, n, rest, x, KeyOf(order, n, s[0]));
      var t := InsertByKey(order, n, rest, x);
      var u := [s[0]] + t;
      assert forall j :: 1 <= j < |u| ==> u[j] == t[j - 1];
    }
  }

  /** The sort orders by key and is a permutation. */
  lemma {:induction false} SortByKeyFacts(order: map<string, nat>, n: nat, s: seq<Record>)
    ensures SortedByKey(order, n, SortByKey(order, n, s))
    ensures multiset(SortByKey(order, n, s)) == multiset(s)
    decreases |s|
  {
    if s != [] {
      var front, x := s[..|s| - 1], s[|s| - 1];
      var sorted := SortByKey(order, n, front);
      SortByKeyFacts(order, n, front);
      InsertByKeySorted(order, n, sorted, x);
      InsertByKeyElements(order, n, sorted, x);
      assert s == front + [x];
    }
  }

  /** The elements of `s` with key `k`, in order. */
  function WithKey(order: map<string, nat>, n: nat, s: seq<Record>, k: nat): seq<Record>
  {
    if s == [] then []
    else (if KeyOf(order, n, s[0]) == k then [s[0]] else []) + WithKey(order, n, s[1..], k)
  }

  lemma WithKeyCons(order: map<string, nat>, n: nat, r: Record, s: seq<Record>, k: nat)
    ensures WithKey(order, n, [r] + s, k) == (if KeyOf(order, n, r) == k then [r] else []) + WithKey(order, n, s, k)
  {
    var t := [r] + s;
    assert t[0] == r && t[1..] == s;
  }

  lemma {:induction false} WithKeyAppend(order: map<string, nat>, n: nat, a: seq<Record>, b: seq<Record>, k: nat)
    ensures WithKey(order, n, a + b, k) == WithKey(order, n, a, k) + WithKey(order, n, b, k)
  {
    if a != [] {
      assert a + b == [a[0]] + (a[1..] + b);
      WithKeyCons(order, n, a[0], a[1..] + b, k);
      WithKeyAppend(order, n, a[1..], b, k);
    } else {
      assert a + b == b;
    }
  }

  lemma {:induction false} WithKeyAbove(order: map<string, nat>, n: nat, s: seq<Record>, k: nat)
    requires forall i :: 0 <= i < |s| ==> k < KeyOf(order, n, s[i])
    ensures WithKey(order, n, s, k) == []
  {
    if s != [] {
      WithKeyAbove(order, n, s[1..], k);
    }
  }

  /** The tail of a sorted sequence is sorted, and no key in it is below the head's. */
  lemma SortedTail(order: map<string, nat>, n: nat, s: seq<Record>)
    requires s != [] && SortedByKey(order, n, s)
    ensures SortedByKey(order, n, s[1..])
    ensures forall i :: 0 <= i < |s| ==> KeyOf(order, n, s[0]) <= KeyOf(order, n, s[i])
  {
    var t := s[1..];
    assert forall i :: 0 <= i < |t| ==> t[i] == s[i + 1];
  }

  lemma {:induction false} InsertByKeyStable(order: map<string, nat>, n: nat, s: seq<Record>, x: Record, k: nat)
    requires SortedByKey(order, n, s)
    ensures WithKey(order, n, InsertByKey(order, n, s, x), k)
      == WithKey(order, n, s, k) + (if KeyOf(order, n, x) == k then [x] else [])
  {
    if s == [] {
      assert [x][1..] == [];
    } else if KeyOf(order, n, x) < KeyOf(order, n, s[0]) {
      WithKeyCons(order, n, x, s, k);
      if KeyOf(order, n, x) == k {
        SortedTail(order, n, s);
        WithKeyAbove(order, n, s, k);
      }
    } else {
      SortedTail(order, n, s);
      InsertByKeyStable(order, n, s[1..], x, k);
      WithKeyCons(order, n, s[0], InsertByKey(order, n, s[1..], x), k);
    }
  }

  /** Stability: records with equal keys keep the order in which they completed. */
  lemma {:induction false} SortByKeyStable(order: map<string, nat>, n: nat, s: seq<Record>, k: nat)
    ensures WithKey(order, n, SortByKey(order, n, s), k) == WithKey(order, n, s, k)
    decreases |s|
  {
    if s != [] {
      var front, x := s[..|s| - 1], s[|s| - 1];
      var sorted := SortByKey(order, n, front);
      SortByKeyStable(order, n, front, k);
      SortByKeyFacts(order, n, front);
      InsertByKeyStable(order, n, sorted, x, k);
      assert s == front + [x];
      WithKeyAppend(order, n, front, [x], k);
      assert [x][1..] == [];
      assert WithKey(order, n, [x], k) == (if KeyOf(order, n, x) == k then [x] else []);
      assert SortByKey(order, n, s) == InsertByKey(order, n, sorted, x);
    }
  }

  /**
   * The reorder step of `resolve_parallel`: `completed` holds the records in
   * the order their runs finished; they are sorted by the input index of
   * their artifact.
   */
  method RestoreInputOrder(artifacts: seq<string>, completed: seq<Record>) returns (results: seq<Record>)
    ensures results == SortByKey(OrderMap(artifacts), |artifacts|, completed)
  {
    var order: map<string, nat> := map[];
    for i := 0 to |artifacts|
      invariant order == OrderMap(artifacts[..i])
    {
      assert artifacts[..i + 1][..i] == artifacts[..i];
      order := order[artifacts[i] := i];
    }
    assert artifacts[..|artifacts|] == artifacts;
    results := SortByKey(order, |artifacts|, completed);
  }

  /** The artifact of each record, in order. */
  function Artifacts(s: seq<Record>): seq<string>
  {
    if s == [] then [] else [s[0].artifact] + Artifacts(s[1..])
  }

  lemma {:induction false} ArtifactsIndex(s: seq<Record>)
    ensures |Artifacts(s)| == |s|
    ensures forall i :: 0 <= i < |s| ==> Artifacts(s)[i] == s[i].artifact
  {
    if s != [] {
      ArtifactsIndex(s[1..]);
    }
  }

  predicate Distinct(a: seq<string>)
  {
    forall i, j :: 0 <= i < j < |a| ==> a[i] != a[j]
  }

  lemma {:induction false} ArtifactsAppend(a: seq<Record>, b: seq<Record>)
    ensures Artifacts(a + b) == Artifacts(a) + Artifacts(b)
  {
    if a == [] {
      assert a + b == b;
    } else {
      assert (a + b)[0] == a[0] && (a + b)[1..] == a[1..] + b;
      ArtifactsAppend(a[1..], b);
    }
  }

  lemma ArtifactsCons(r: Record, s: seq<Record>)
    ensures Artifacts([r] + s) == [r.artifact] + Artifacts(s)
  {
    var t := [r] + s;
    assert t[0] == r && t[1..] == s;
  }

  lemma ArtifactsSnoc(s: seq<Record>, x: Record)
    ensures Artifacts(s + [x]) == Artifacts(s) + [x.artifact]
  {
    ArtifactsAppend(s, [x]);
    ArtifactsCons(x, []);
  }

  lemma MultisetConsStep(h: string, a: seq<string>, b: seq<string>, y: string)
    requires multiset(a) == multiset(b) + multiset{y}
    ensures multiset([h] + a) == multiset([h] + b) + multiset{y}
  {
  }

  /** Insertion adds the artifact of `x` to the artifacts present. */
  lemma {:induction false} InsertByKeyArtifacts(order: map<string, nat>, n: nat, s: seq<Record>, x: Record)
    ensures multiset(Artifacts(InsertByKey(order, n, s, x))) == multiset(Artifacts(s)) + multiset{x.artifact}
  {
    if s == [] {
      ArtifactsCons(x, []);
    } else if KeyOf(order, n, x) < KeyOf(order, n, s[0]) {
      ArtifactsCons(x, s);
    } else {
      var rest := InsertByKey(order, n, s[1..], x);
      InsertByKeyArtifacts(order, n, s[1..], x);
      ArtifactsCons(s[0], rest);
      MultisetConsStep(s[0].artifact, Artifacts(rest), Artifacts(s[1..]), x.artifact);
    }
  }

  /** The sort neither adds nor loses an artifact. */
  lemma {:induction false} SortByKeyArtifacts(order: map<string, nat>, n: nat, s: seq<Record>)
    ensures multiset(Artifacts(SortByKey(order, n, s))) == multiset(Artifacts(s))
    decreases |s|
  {
    if s != [] {
      var front, x := s[..|s| - 1], s[|s| - 1];
      var sorted := SortByKey(order, n, front);
      assert SortByKey(order, n, s) == InsertByKey(order, n, sorted, x);
      SortByKeyArtifacts(order, n, front);
      InsertByKeyArtifacts(order, n, sorted, x);
      assert front + [x] == s;
      ArtifactsSnoc(front, x);
    }
  }

  /** In a sequence without repetitions every element occurs once. */
  lemma {:induction false} DistinctOnce(a: seq<string>, x: string)
    requires Distinct(a)
    ensures multiset(a)[x] <= 1
  {
    if a != [] {
      assert a == [a[0]] + a[1..];
      DistinctOnce(a[1..], x);
      if a[0] == x {
        assert x !in a[1..] by {
          forall k | 0 <= k < |a[1..]| ensures a[1..][k] != x { assert a[k + 1] != a[0]; }
        }
      }
    }
  }

  /** A permutation of a sequence without repetitions has none either. */
  lemma PermutationDistinct(a: seq<string>, b: seq<string>)
    requires Distinct(a) && multiset(b) == multiset(a)
    ensures Distinct(b)
  {
    forall i, j | 0 <= i < j < |b|
      ensures b[i] != b[j]
    {
      if b[i] == b[j] {
        var x := b[i];
        assert b == b[..i] + [x] + b[i + 1..j] + [x] + b[j + 1..];
        assert multiset(b)[x] >= 2;
        DistinctOnce(a, x);
        assert false;
      }
    }
  }

  /** `n` keys that strictly increase and lie below `n` are `0, 1, ..., n - 1`. */
  lemma StrictlyIncreasingBelow(k: seq<nat>, n: nat)
    requires |k| == n
    requires forall i, j :: 0 <= i < j < n ==> k[i] < k[j]
    requires forall i :: 0 <= i < n ==> k[i] < n
    ensures forall i :: 0 <= i < n ==> k[i] == i
  {
    forall i | 0 <= i < n
      ensures k[i] == i
    {
      AtLeastIndex(k, n, i);
      AtMostIndex(k, n, i);
    }
  }

  lemma {:induction false} AtLeastIndex(k: seq<nat>, n: nat, i: nat)
    requires |k| == n && i < n
    requires forall i, j :: 0 <= i < j < n ==> k[i] < k[j]
    ensures k[i] >= i
  {
    if i > 0 {
      AtLeastIndex(k, n, i - 1);
    }
  }

  lemma {:induction false} AtMostIndex(k: seq<nat>, n: nat, i: nat)
    requires |k| == n && i < n
    requires forall i, j :: 0 <= i < j < n ==> k[i] < k[j]
    requires forall i :: 0 <= i < n ==> k[i] < n
    ensures k[i] <= i
    decreases n - i
  {
    if i < n - 1 {
      AtMostIndex(k, n, i + 1);
    }
  }

  function Keys(order: map<string, nat>, n: nat, s: seq<Record>): (k: seq<nat>)
    ensures |k| == |s| && forall i :: 0 <= i < |s| ==> k[i] == KeyOf(order, n, s[i])
  {
    if s == [] then [] else [KeyOf(order, n, s[0])] + Keys(order, n, s[1..])
  }

  /** Sorted records with distinct mapped artifacts have strictly increasing keys. */
  lemma KeysIncrease(order: map<string, nat>, n: nat, out: seq<Record>)
    requires SortedByKey(order, n, out)
    requires forall i, j :: 0 <= i < j < |out| ==> out[i].artifact != out[j].artifact
    requires forall i :: 0 <= i < |out| ==> out[i].artifact in order
    requires forall a, b :: a in order && b in order && order[a] == order[b] ==> a == b
    ensures forall i, j :: 0 <= i < j < |out| ==> Keys(order, n, out)[i] < Keys(order, n, out)[j]
  {
    var keys := Keys(order, n, out);
    forall i, j | 0 <= i < j < |out|
      ensures keys[i] < keys[j]
    {
      assert keys[i] == order[out[i].artifact] && keys[j] == order[out[j].artifact];
    }
  }

  /** Distinct artifacts get distinct indices. */
  lemma OrderMapInjective(artifacts: seq<string>)
    ensures forall a, b ::
      (a in OrderMap(artifacts) && b in OrderMap(artifacts) && OrderMap(artifacts)[a] == OrderMap(artifacts)[b]) ==> a == b
  {
    OrderMapLastIndex(artifacts);
  }

  /** Records carrying a permutation of the input artifacts: one per input, each with an index. */
  lemma PermutedArtifacts(artifacts: seq<string>, out: seq<Record>)
    requires Distinct(artifacts)
    requires multiset(Artifacts(out)) == multiset(artifacts)
    ensures |out| == |artifacts|
    ensures forall i :: 0 <= i < |out| ==> out[i].artifact in OrderMap(artifacts)
    ensures forall i, j :: 0 <= i < j < |out| ==> out[i].artifact != out[j].artifact
  {
    var outArtifacts := Artifacts(out);
    ArtifactsIndex(out);
    PermutationDistinct(artifacts, outArtifacts);
    OrderMapLastIndex(artifacts);
    assert |multiset(outArtifacts)| == |multiset(artifacts)|;
    forall i | 0 <= i < |out|
      ensures out[i].artifact in OrderMap(artifacts)
    {
      assert outArtifacts[i] in multiset(artifacts);
    }
  }

  /**
   * When the input artifacts are pairwise distinct and the completed records
   * are one per input artifact, in any order, the reordered records follow
   * the input exactly.
   */
  lemma DistinctInputOrderRestored(artifacts: seq<string>, completed: seq<Record>)
    requires Distinct(artifacts)
    requires multiset(Artifacts(completed)) == multiset(artifacts)
    ensures Artifacts(SortByKey(OrderMap(artifacts), |artifacts|, completed)) == artifacts
  {
    var order, n := OrderMap(artifacts), |artifacts|;
    var out := SortByKey(order, n, completed);
    SortByKeyFacts(order, n, completed);
    SortByKeyArtifacts(order, n, completed);
    PermutedArtifacts(artifacts, out);
    OrderMapInjective(artifacts);
    KeysIncrease(order, n, out);
    var keys := Keys(order, n, out);
    OrderMapLastIndex(artifacts);
    StrictlyIncreasingBelow(keys, n);
    ArtifactsIndex(out);
    forall i | 0 <= i < n
      ensures Artifacts(out)[i] == artifacts[i]
    {
      assert keys[i] == order[out[i].artifact];
    }
  }

  /** The index map of `A, B, A`: the later `A` overwrites the earlier one. */
  lemma OrderMapABA()
    ensures OrderMap(["A", "B", "A"]) == map["A" := 2, "B" := 1]
  {
    var l := ["A", "B", "A"];
    assert l[..2] == ["A", "B"] && l[..2][..1] == ["A"] && l[..2][..1][..0] == [];
    assert OrderMap(["A"]) == map["A" := 0];
    assert OrderMap(["A", "B"]) == map["A" := 0, "B" := 1];
    var m := map["A" := 0, "B" := 1]["A" := 2];
    assert m.Keys == {"A", "B"} && m["A"] == 2 && m["B"] == 1;
  }

  /**
   * With a repeated artifact the input order is not restored: for the input
   * `A, B, A`, both `A` records get index 2, so the `B` record moves in front.
   */
  lemma DuplicateInputReordered(a0: Record, b: Record, a2: Record)
    requires a0.artifact == "A" && b.artifact == "B" && a2.artifact == "A"
    ensures SortByKey(OrderMap(["A", "B", "A"]), 3, [a0, b, a2]) == [b, a0, a2]
    ensures Artifacts(SortByKey(OrderMap(["A", "B", "A"]), 3, [a0, b, a2])) == ["B", "A", "A"]
  {
    var order := OrderMap(["A", "B", "A"]);
    OrderMapABA();
    assert KeyOf(order, 3, a0) == 2 && KeyOf(order, 3, b) == 1 && KeyOf(order, 3, a2) == 2;
    var s := [a0, b, a2];
    assert s[..2] == [a0, b] && s[..2][..1] == [a0] && s[..2][..1][..0] == [];
    assert SortByKey(order, 3, [a0]) == [a0];
    assert SortByKey(order, 3, [a0, b]) == [b, a0];
    assert InsertByKey(order, 3, [a0], a2) == [a0, a2];
    assert SortByKey(order, 3, s) == [b, a0, a2];
    ArtifactsCons(b, [a0, a2]);
    ArtifactsCons(a0, [a2]);
    ArtifactsCons(a2, []);
  }

  /**
   * Each reordered record comes after every record with a smaller input index,
   * the records are those that completed, and records of the same input index
   * (a repeated artifact) keep the order in which they completed.
   */
  lemma RestoredOrderFacts(artifacts: seq<string>, completed: seq<Record>, k: nat)
    ensures var out := SortByKey(OrderMap(artifacts), |artifacts|, completed);
      && SortedByKey(OrderMap(artifacts), |artifacts|, out)
      && multiset(out) == multiset(completed)
      && WithKey(OrderMap(artifacts), |artifacts|, out, k) == WithKey(OrderMap(artifacts), |artifacts|, completed, k)
  {
    SortByKeyFacts(OrderMap(artifacts), |artifacts|, completed);
    SortByKeyStable(OrderMap(artifacts), |artifacts|, completed, k);
  }

  // ---------------------------------------------------------------------
  // Summary counts

  /** `sum(1 for r in results if r['resolved'])` */
  function CountResolved(results: seq<Record>): (n: nat)
    ensures n <= |results|
    ensures n == |results| <==> forall i :: 0 <= i < |results| ==> results[i].resolved
  {
    if results == [] then 0
    else
      var rest := CountResolved(results[1..]);
      assert forall i :: 1 <= i < |results| ==> results[i] == results[1..][i - 1];
      (if results[0].resolved then 1 else 0) + rest
  }

  /** `sum(1 for r in results if not r['resolved'])` */
  function CountUnresolved(results: seq<Record>): nat
  {
    if results == [] then 0 else (if results[0].resolved then 0 else 1) + CountUnresolved(results[1..])
  }

  /** The JSON report's two counts add up to the total, as the table's `total - resolved` assumes. */
  lemma {:induction false} CountsAddUp(results: seq<Record>)
    ensures CountResolved(results) + CountUnresolved(results) == |results|
  {
    if results != [] {
      CountsAddUp(results[1..]);
    }
  }

  /** `resolved*100//total if total else 0` */
  function ResolutionPercent(resolved: nat, total: nat): (p: int)
    requires resolved <= total
    ensures 0 <= p <= 100
    ensures total == 0 ==> p == 0
    ensures total > 0 ==> (p == 100 <==> resolved == total)
    ensures total > 0 ==> (p == 0 <==> resolved * 100 < total)
  {
    if total == 0 then 0
    else
      PercentBounds(resolved, total);
      resolved * 100 / total
  }

  lemma MulMonotone(x: int, y: int, t: nat)
    requires x <= y
    ensures x * t <= y * t
  {
  }

  /** Bounds of the floor division `resolved * 100 // total`. */
  lemma PercentBounds(resolved: nat, total: nat)
    requires resolved <= total && total > 0
    ensures 0 <= resolved * 100 / total <= 100
    ensures resolved * 100 / total == 100 <==> resolved == total
    ensures resolved * 100 / total == 0 <==> resolved * 100 < total
  {
    var a := resolved * 100;
    var q, rem := a / total, a % total;
    assert a == q * total + rem && 0 <= rem < total;
    MulMonotone(resolved, total, 100);
    if q > 100 {
      MulMonotone(101, q, total);
      assert false;
    }
    if resolved < total {
      MulMonotone(resolved, total - 1, 100);
      if q >= 100 {
        MulMonotone(100, q, total);
        assert false;
      }
    } else {
      if q < 100 {
        MulMonotone(q, 99, total);
        assert false;
      }
    }
    if a < total && q >= 1 {
      MulMonotone(1, q, total);
      assert false;
    }
  }

  /** The figures every output format reports. */
  datatype Summary = Summary(total: nat, resolved: nat, unresolved: nat, percent: int)

  /**
   * The integer summary of the Markdown and table outputs (the JSON report
   * gives the same three counts).
   */
  function Summarize(results: seq<Record>): (s: Summary)
    ensures s.total == |results| && s.resolved + s.unresolved == s.total
    ensures s.unresolved == CountUnresolved(results)
    ensures s.resolved == CountResolved(results)
    ensures s.percent == ResolutionPercent(s.resolved, s.total)
    ensures 0 <= s.percent <= 100
    ensures s.total == 0 ==> s.percent == 0
    ensures s.total > 0 ==> (s.percent == 100 <==> forall i :: 0 <= i < |results| ==> results[i].resolved)
  {
    var total := |results|;
    var resolved := CountResolved(results);
    CountsAddUp(results);
    Summary(total, resolved, total - resolved, ResolutionPercent(resolved, total))
  }
}
