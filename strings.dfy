/**
 * The handful of Python string operations the three scripts rely on
 * (`startswith`, `in`, `replace`, `strip`, `rstrip`, `split`), written over
 * `string` = `seq<char>`, together with the small facts about them that the
 * lemmas of the other modules use.
 */
module Strings {

  /** `s.startswith(prefix)` */
  predicate StartsWith(s: string, prefix: string)
  {
    |prefix| <= |s| && s[..|prefix|] == prefix
  }

  /** `w` occurs in `s` starting at index `i`. */
  predicate OccursAt(s: string, w: string, i: int)
  {
    0 <= i && i + |w| <= |s| && s[i..i + |w|] == w
  }

  /** `w in s` for two strings. */
  predicate Contains(s: string, w: string)
  {
    exists i :: 0 <= i <= |s| - |w| && OccursAt(s, w, i)
  }

  /** `s.endswith(c)` for a one-character suffix. */
  predicate EndsWithChar(s: string, c: char)
  {
    |s| > 0 && s[|s| - 1] == c
  }

  /** Number of occurrences of the character `c` in `s`. */
  function Count(s: string, c: char): (n: nat)
    ensures n <= |s|
    ensures n == 0 <==> c !in s
  {
    if s == [] then 0 else (if s[0] == c then 1 else 0) + Count(s[1..], c)
  }

  /** Concatenation regroups freely; stated once so that callers need not unfold it. */
  lemma ConcatAssoc<T>(p: seq<T>, q: seq<T>, t: seq<T>)
    ensures p + (q + t) == (p + q) + t
  {
  }

  // ---------------------------------------------------------------------
  // str.replace

  /**
   * `s.replace(pat, rep)` for a non-empty `pat`: occurrences are found from
   * left to right and do not overlap; the text produced by a replacement is
   * never searched again.
   */
  function ReplaceAll(s: string, pat: string, rep: string): string
    requires pat != []
    decreases |s|
  {
    if |s| == 0 then []
    else if StartsWith(s, pat) then rep + ReplaceAll(s[|pat|..], pat, rep)
    else [s[0]] + ReplaceAll(s[1..], pat, rep)
  }

  /** An occurrence at the very start is replaced and the scan resumes after it. */
  lemma ReplaceMatch(pat: string, rep: string, t: string)
    requires pat != []
    ensures ReplaceAll(pat + t, pat, rep) == rep + ReplaceAll(t, pat, rep)
  {
    assert (pat + t)[..|pat|] == pat;
    assert (pat + t)[|pat|..] == t;
  }

  /** A character in neither `s` nor `rep` is not in the result either. */
  lemma {:induction false} ReplaceNoChar(s: string, pat: string, rep: string, c: char)
    requires pat != [] && c !in s && c !in rep
    ensures c !in ReplaceAll(s, pat, rep)
    decreases |s|
  {
    if s != [] {
      if StartsWith(s, pat) {
        assert forall k :: 0 <= k < |s[|pat|..]| ==> s[|pat|..][k] == s[k + |pat|];
        ReplaceNoChar(s[|pat|..], pat, rep, c);
      } else {
        assert forall k :: 0 <= k < |s[1..]| ==> s[1..][k] == s[k + 1];
        ReplaceNoChar(s[1..], pat, rep, c);
      }
    }
  }

  /** An occurrence at the very start that is replaced by nothing is dropped. */
  lemma ReplaceDrop(pat: string, t: string)
    requires pat != []
    ensures ReplaceAll(pat + t, pat, "") == ReplaceAll(t, pat, "")
  {
    ReplaceMatch(pat, "", t);
    assert "" + ReplaceAll(t, pat, "") == ReplaceAll(t, pat, "");
  }

  /** A leading character that differs from `pat` at some position is copied. */
  lemma ReplaceSkipOne(c: char, t: string, pat: string, rep: string, k: nat)
    requires pat != [] && k < |pat|
    requires |pat| <= 1 + |t| ==> ([c] + t)[k] != pat[k]
    ensures ReplaceAll([c] + t, pat, rep) == [c] + ReplaceAll(t, pat, rep)
  {
    var s := [c] + t;
    assert !StartsWith(s, pat) by {
      if |pat| <= |s| {
        assert s[..|pat|][k] == s[k] != pat[k];
      }
    }
    assert s[0] == c && s[1..] == t;
  }

  /** A chunk without the first character of `pat` cannot start an occurrence. */
  lemma {:induction false} ReplaceSkipChunk(a: string, t: string, pat: string, rep: string)
    requires pat != [] && pat[0] !in a
    ensures ReplaceAll(a + t, pat, rep) == a + ReplaceAll(t, pat, rep)
    decreases |a|
  {
    if a == [] {
      assert a + t == t;
    } else {
      ReplaceSkipOne(a[0], a[1..] + t, pat, rep, 0);
      assert a + t == [a[0]] + (a[1..] + t);
      ReplaceSkipChunk(a[1..], t, pat, rep);
      assert a == [a[0]] + a[1..];
    }
  }

  /** No occurrence is possible when the character at some position `j` of `pat` is missing from `s`. */
  lemma {:induction false} ReplaceAbsent(s: string, pat: string, rep: string, j: nat)
    requires j < |pat| && pat[j] !in s
    ensures ReplaceAll(s, pat, rep) == s
    decreases |s|
  {
    if s != [] {
      assert !StartsWith(s, pat) by {
        if |pat| <= |s| {
          assert s[..|pat|][j] == s[j] != pat[j];
        }
      }
      ReplaceAbsent(s[1..], pat, rep, j);
      assert s == [s[0]] + s[1..];
    }
  }

  // ---------------------------------------------------------------------
  // str.strip and str.rstrip

  /** The characters Python's `str.isspace` accepts. */
  predicate IsSpace(c: char)
  {
    c == ' ' || c == '\t' || c == '\n' || c == '\r' || c == '\U{B}' || c == '\U{C}'
    || ('\U{1C}' <= c <= '\U{1F}') || c == '\U{85}' || c == '\U{A0}' || c == '\U{1680}'
    || ('\U{2000}' <= c <= '\U{200A}') || c == '\U{2028}' || c == '\U{2029}' || c == '\U{202F}'
    || c == '\U{205F}' || c == '\U{3000}'
  }

  /** `s.rstrip(c)`: drop every trailing `c`. */
  function RStripChar(s: string, c: char): (r: string)
    ensures StartsWith(s, r)
    ensures !EndsWithChar(r, c)
    ensures forall j :: |r| <= j < |s| ==> s[j] == c
  {
    if s == [] || s[|s| - 1] != c then s else RStripChar(s[..|s| - 1], c)
  }

  /** Drop trailing whitespace. */
  function RStripSpace(s: string): (r: string)
    ensures |r| <= |s|
    ensures r == [] || !IsSpace(r[|r| - 1])
  {
    if s == [] || !IsSpace(s[|s| - 1]) then s else RStripSpace(s[..|s| - 1])
  }

  /** Drop leading whitespace. */
  function LStripSpace(s: string): (r: string)
    ensures |r| <= |s|
    ensures r == [] || !IsSpace(r[0])
  {
    if s == [] || !IsSpace(s[0]) then s else LStripSpace(s[1..])
  }

  /** `s.strip()`: drop leading and trailing whitespace. */
  function Strip(s: string): (r: string)
    ensures r == [] || (!IsSpace(r[0]) && !IsSpace(r[|r| - 1]))
    ensures |r| <= |s|
  {
    var l := LStripSpace(s);
    RStripSpaceDrops(l);
    RStripSpace(l)
  }

  /** What `RStripSpace` drops is a run of whitespace at the end. */
  lemma {:induction false} RStripSpaceDrops(s: string)
    ensures var r := RStripSpace(s);
      StartsWith(s, r) && forall j :: |r| <= j < |s| ==> IsSpace(s[j])
    decreases |s|
  {
    if s != [] && IsSpace(s[|s| - 1]) {
      var t := s[..|s| - 1];
      RStripSpaceDrops(t);
      var r := RStripSpace(t);
      assert s[..|r|] == t[..|r|];
      assert forall j :: |r| <= j < |t| ==> s[j] == t[j];
    }
  }

  /** What `LStripSpace` drops is a run of whitespace at the start. */
  lemma {:induction false} LStripSpaceDrops(s: string)
    ensures var r := LStripSpace(s);
      r == s[|s| - |r|..] && forall j :: 0 <= j < |s| - |r| ==> IsSpace(s[j])
    decreases |s|
  {
    if s != [] && IsSpace(s[0]) {
      var t := s[1..];
      LStripSpaceDrops(t);
      var r := LStripSpace(t);
      assert t[|t| - |r|..] == s[|s| - |r|..];
      assert forall j :: 0 <= j < |t| - |r| ==> s[j + 1] == t[j];
    }
  }

  /**
   * `strip()` keeps one contiguous piece of `s`: everything in front of it
   * and everything after it is whitespace.
   */
  lemma StripKeepsMiddle(s: string)
    ensures var r := Strip(s);
      exists i :: OccursAt(s, r, i)
        && (forall j :: 0 <= j < i ==> IsSpace(s[j]))
        && (forall j :: i + |r| <= j < |s| ==> IsSpace(s[j]))
  {
    var l := LStripSpace(s);
    LStripSpaceDrops(s);
    RStripSpaceDrops(l);
    var r := Strip(s);
    var i := |s| - |l|;
    assert s[i..i + |r|] == l[..|r|];
    forall j | i + |r| <= j < |s|
      ensures IsSpace(s[j])
    {
      assert s[j] == l[j - i];
    }
    assert OccursAt(s, r, i);
  }

  /** A string that neither starts nor ends with whitespace is its own `strip()`. */
  lemma StripTrimmed(s: string)
    requires s == [] || (!IsSpace(s[0]) && !IsSpace(s[|s| - 1]))
    ensures Strip(s) == s
  {
  }

  // ---------------------------------------------------------------------
  // str.split

  /** `s.split(sep)` for a one-character separator: always at least one part. */
  function Split(s: string, sep: char): (parts: seq<string>)
    ensures |parts| >= 1
  {
    if s == [] then [[]]
    else
      var rest := Split(s[1..], sep);
      if s[0] == sep then [[]] + rest else [[s[0]] + rest[0]] + rest[1..]
  }

  /** There is one more part than separators, and no part contains the separator. */
  lemma {:induction false} SplitParts(s: string, sep: char)
    ensures |Split(s, sep)| == Count(s, sep) + 1
    ensures forall k :: 0 <= k < |Split(s, sep)| ==> sep !in Split(s, sep)[k]
  {
    if s != [] {
      SplitParts(s[1..], sep);
      var rest := Split(s[1..], sep);
      if s[0] != sep {
        var parts := [[s[0]] + rest[0]] + rest[1..];
        assert parts[0] == [s[0]] + rest[0];
        assert forall k :: 1 <= k < |parts| ==> parts[k] == rest[k];
      }
    }
  }

  /** `sep.join(parts)` */
  function Join(parts: seq<string>, sep: char): string
    requires |parts| >= 1
  {
    if |parts| == 1 then parts[0] else parts[0] + [sep] + Join(parts[1..], sep)
  }

  /** Prepending a character to the first part prepends it to the joined string. */
  lemma JoinPrepend(c: char, parts: seq<string>, sep: char)
    requires |parts| >= 1
    ensures Join([[c] + parts[0]] + parts[1..], sep) == [c] + Join(parts, sep)
  {
    var ps := [[c] + parts[0]] + parts[1..];
    if |parts| > 1 {
      assert ps[1..] == parts[1..];
      calc {
        Join(ps, sep);
        ([c] + parts[0]) + [sep] + Join(parts[1..], sep);
        [c] + (parts[0] + [sep] + Join(parts[1..], sep));
      }
    }
  }

  /** Splitting and joining again gives back the original string. */
  lemma {:induction false} SplitJoin(s: string, sep: char)
    ensures Join(Split(s, sep), sep) == s
  {
    if s != [] {
      SplitJoin(s[1..], sep);
      var rest := Split(s[1..], sep);
      if s[0] == sep {
        assert ([[]] + rest)[1..] == rest;
        assert s == [sep] + s[1..];
      } else {
        JoinPrepend(s[0], rest, sep);
        assert s == [s[0]] + s[1..];
      }
    }
  }

  /** Index of the first `c` in `s`; `|s|` when there is none. */
  function IndexOf(s: string, c: char): (i: nat)
    ensures i <= |s|
    ensures i < |s| <==> c in s
    ensures i < |s| ==> s[i] == c
    ensures c !in s[..i]
  {
    if s == [] then 0 else if s[0] == c then 0 else 1 + IndexOf(s[1..], c)
  }
}
