/** The parts of Python's `str` behaviour the extraction relies on:
    `find` and `split` with a literal separator, `join`, `replace(c, '')`,
    `count`, `startswith`, and `filter(None, ...)` over a list of strings. */
module Text {
  import opened Results

  /** `sep` occurs in `s` starting at index `i`. */
  predicate OccursAt(s: string, sep: string, i: nat) {
    i + |sep| <= |s| && s[i..i + |sep|] == sep
  }

  predicate Contains(s: string, sep: string) {
    exists i: nat | i <= |s| :: OccursAt(s, sep, i)
  }

  /** `s.startswith(prefix)` */
  function StartsWith(s: string, prefix: string): (b: bool)
    ensures b <==> |prefix| <= |s| && forall i :: 0 <= i < |prefix| ==> s[i] == prefix[i]
  {
    |prefix| <= |s| && s[..|prefix|] == prefix
  }

  /** `s.find(sep, from)`: the leftmost occurrence of `sep` at or after `from`. */
  function Find(s: string, sep: string, from: nat): (r: Option<nat>)
    requires |sep| > 0
    ensures r.Some? ==> from <= r.value && OccursAt(s, sep, r.value)
    ensures forall j: nat :: from <= j && (r.None? || j < r.value) ==> !OccursAt(s, sep, j)
    decreases |s| - from
  {
    if |s| < from + |sep| then None
    else if s[from..from + |sep|] == sep then Some(from)
    else Find(s, sep, from + 1)
  }

  /** `sep.join(parts)` */
  function Join(parts: seq<string>, sep: string): string {
    if |parts| == 0 then ""
    else if |parts| == 1 then parts[0]
    else parts[0] + sep + Join(parts[1..], sep)
  }

  /** Every piece but the last was cut at the leftmost occurrence of `sep`:
      no occurrence of `sep` starts inside the piece, even one that would
      run on into the separator that follows it. */
  predicate CutAtLeftmost(parts: seq<string>, sep: string)
    requires |sep| > 0
  {
    forall i :: 0 <= i < |parts| - 1 ==> !Contains(parts[i] + sep[..|sep| - 1], sep)
  }

  /** `s.split(sep)` for a non-empty literal separator. */
  function Split(s: string, sep: string): (r: seq<string>)
    requires |sep| > 0
    ensures |r| > 0
    ensures Join(r, sep) == s
    ensures forall i :: 0 <= i < |r| ==> !Contains(r[i], sep)
    decreases |s|
  {
    match Find(s, sep, 0)
    case None =>
      NoOccurrenceBefore(s, sep, |s|);
      [s]
    case Some(i) =>
      NoOccurrenceBefore(s, sep, i);
      var rest := Split(s[i + |sep|..], sep);
      assert ([s[..i]] + rest)[1..] == rest;
      assert s == s[..i] + sep + s[i + |sep|..];
      [s[..i]] + rest
  }

  /** `split` cuts at leftmost occurrences, scanning from the left. */
  lemma {:induction false} SplitCutsAtLeftmost(s: string, sep: string)
    requires |sep| > 0
    ensures CutAtLeftmost(Split(s, sep), sep)
    decreases |s|
  {
    match Find(s, sep, 0)
    case None =>
    case Some(i) =>
      var rest := s[i + |sep|..];
      LeftmostCut(s, sep, i);
      SplitCutsAtLeftmost(rest, sep);
      var r := Split(s, sep);
      assert r == [s[..i]] + Split(rest, sep);
      forall k | 0 <= k < |r| - 1
        ensures !Contains(r[k] + sep[..|sep| - 1], sep)
      {
        if k > 0 {
          assert r[k] == Split(rest, sep)[k - 1];
        }
      }
  }

  /** If no occurrence of `sep` in `s` starts before `i`, the prefix `s[..i]` holds none. */
  lemma NoOccurrenceBefore(s: string, sep: string, i: nat)
    requires |sep| > 0 && i <= |s|
    requires forall j: nat :: j < i ==> !OccursAt(s, sep, j)
    ensures !Contains(s[..i], sep)
  {
    forall j: nat | OccursAt(s[..i], sep, j)
      ensures false
    {
      assert s[..i][j..j + |sep|] == s[j..j + |sep|];
      assert OccursAt(s, sep, j);
    }
  }

  /** A cut at the leftmost occurrence `i` leaves no occurrence straddling the cut. */
  lemma LeftmostCut(s: string, sep: string, i: nat)
    requires |sep| > 0 && OccursAt(s, sep, i)
    requires forall j: nat :: j < i ==> !OccursAt(s, sep, j)
    ensures !Contains(s[..i] + sep[..|sep| - 1], sep)
  {
    var t := s[..i] + sep[..|sep| - 1];
    assert t == s[..i + |sep| - 1];
    forall j: nat | j <= |t|
      ensures !OccursAt(t, sep, j)
    {
      assert OccursAt(t, sep, j) ==> OccursAt(s, sep, j);
    }
  }

  /** Splitting a joined list gives the list back, provided no piece contains
      the separator and no occurrence straddles a join point. Together with
      `Split`'s own contract this makes `Split` and `Join` mutually inverse. */
  lemma {:induction false} SplitJoin(parts: seq<string>, sep: string)
    requires |sep| > 0 && |parts| > 0
    requires forall i :: 0 <= i < |parts| ==> !Contains(parts[i], sep)
    requires CutAtLeftmost(parts, sep)
    ensures Split(Join(parts, sep), sep) == parts
    decreases |parts|
  {
    var s := Join(parts, sep);
    if |parts| == 1 {
      FindSome(s, sep);
      SplitWhole(s, sep);
    } else {
      var rest := Join(parts[1..], sep);
      assert s == parts[0] + sep + rest;
      FindFirstJoin(parts, sep);
      SplitAt(s, sep, |parts[0]|);
      assert s[..|parts[0]|] == parts[0];
      assert s[|parts[0]| + |sep|..] == rest;
      CutAtLeftmostTail(parts, sep);
      SplitJoin(parts[1..], sep);
      assert parts == [parts[0]] + parts[1..];
    }
  }

  /** Without an occurrence, `split` returns the whole string. */
  lemma SplitWhole(s: string, sep: string)
    requires |sep| > 0 && Find(s, sep, 0).None?
    ensures Split(s, sep) == [s]
  {
  }

  /** `split` cuts at the occurrence `find` reports and carries on after it. */
  lemma SplitAt(s: string, sep: string, i: nat)
    requires |sep| > 0 && Find(s, sep, 0) == Some(i)
    ensures i + |sep| <= |s|
    ensures Split(s, sep) == [s[..i]] + Split(s[i + |sep|..], sep)
  {
  }

  lemma CutAtLeftmostTail(parts: seq<string>, sep: string)
    requires |sep| > 0 && |parts| > 0 && CutAtLeftmost(parts, sep)
    ensures CutAtLeftmost(parts[1..], sep)
  {
    forall i | 0 <= i < |parts[1..]| - 1
      ensures !Contains(parts[1..][i] + sep[..|sep| - 1], sep)
    {
      assert parts[1..][i] == parts[i + 1];
    }
  }

  /** `find` succeeds exactly when there is something to find. */
  lemma FindSome(s: string, sep: string)
    requires |sep| > 0
    ensures Find(s, sep, 0).Some? <==> Contains(s, sep)
  {
    if Find(s, sep, 0).Some? {
      var k := Find(s, sep, 0).value;
      assert k <= |s| && OccursAt(s, sep, k);
    } else {
      forall j: nat | j <= |s|
        ensures !OccursAt(s, sep, j)
      {
      }
    }
  }

  /** An occurrence with none before it is the one `find` reports. */
  lemma FindIs(s: string, sep: string, i: nat)
    requires |sep| > 0 && OccursAt(s, sep, i)
    requires forall j: nat :: j < i ==> !OccursAt(s, sep, j)
    ensures Find(s, sep, 0) == Some(i)
  {
    var r := Find(s, sep, 0);
    assert r.Some? && r.value <= i;
  }

  /** A prefix without `sep` rules out every occurrence that fits inside it. */
  lemma PrefixWithout(s: string, sep: string, m: nat)
    requires |sep| > 0 && m <= |s| && !Contains(s[..m], sep)
    ensures forall j: nat :: j + |sep| <= m ==> !OccursAt(s, sep, j)
  {
    forall j: nat | j + |sep| <= m
      ensures !OccursAt(s, sep, j)
    {
      assert s[..m][j..j + |sep|] == s[j..j + |sep|];
      assert !OccursAt(s[..m], sep, j);
    }
  }

  /** In a joined list, the first occurrence of the separator is the first join point. */
  lemma FindFirstJoin(parts: seq<string>, sep: string)
    requires |sep| > 0 && |parts| > 1
    requires CutAtLeftmost(parts, sep)
    ensures Find(Join(parts, sep), sep, 0) == Some(|parts[0]|)
  {
    var s := Join(parts, sep);
    var p := parts[0];
    assert s == p + sep + Join(parts[1..], sep);
    assert s[|p|..|p| + |sep|] == sep;
    assert s[..|p| + |sep| - 1] == p + sep[..|sep| - 1];
    PrefixWithout(s, sep, |p| + |sep| - 1);
    FindIs(s, sep, |p|);
  }

  /** `list(filter(None, parts))`: the non-empty strings, in their original order. */
  function NonEmpty(parts: seq<string>): (r: seq<string>)
    ensures |r| <= |parts|
    ensures forall i :: 0 <= i < |r| ==> r[i] != "" && r[i] in parts
  {
    if |parts| == 0 then []
    else (if parts[0] == "" then [] else [parts[0]]) + NonEmpty(parts[1..])
  }

  /** Filtering drops exactly the empty strings: every other string keeps its count. */
  lemma {:induction false} NonEmptyCounts(parts: seq<string>)
    ensures multiset(NonEmpty(parts)) == multiset(parts)["" := 0]
    decreases |parts|
  {
    if |parts| > 0 {
      assert parts == [parts[0]] + parts[1..];
      NonEmptyCounts(parts[1..]);
    }
  }

  /** Filtering commutes with concatenation: it never reorders pieces. */
  lemma {:induction false} NonEmptyAppend(a: seq<string>, b: seq<string>)
    ensures NonEmpty(a + b) == NonEmpty(a) + NonEmpty(b)
    decreases |a|
  {
    if |a| == 0 {
      assert a + b == b;
    } else {
      var head := if a[0] == "" then [] else [a[0]];
      assert (a + b)[0] == a[0];
      assert (a + b)[1..] == a[1..] + b;
      assert NonEmpty(a + b) == head + NonEmpty(a[1..] + b);
      NonEmptyAppend(a[1..], b);
      assert head + (NonEmpty(a[1..]) + NonEmpty(b)) == (head + NonEmpty(a[1..])) + NonEmpty(b);
    }
  }

  /** Filtering twice is filtering once. */
  lemma {:induction false} NonEmptyIdempotent(parts: seq<string>)
    ensures NonEmpty(NonEmpty(parts)) == NonEmpty(parts)
    decreases |parts|
  {
    if |parts| > 0 {
      var head := if parts[0] == "" then [] else [parts[0]];
      NonEmptyAppend(head, NonEmpty(parts[1..]));
      NonEmptyIdempotent(parts[1..]);
    }
  }

  /** `s.replace(c, '')`: `s` with every `c` deleted and the rest kept in order. */
  function Remove(s: string, c: char): (r: string)
    ensures |r| <= |s|
    ensures c !in r
  {
    if |s| == 0 then ""
    else (if s[0] == c then "" else [s[0]]) + Remove(s[1..], c)
  }

  /** Deleting `c` removes exactly the occurrences of `c`: every other
      character keeps its count. */
  lemma {:induction false} RemoveCounts(s: string, c: char)
    ensures multiset(Remove(s, c)) == multiset(s)[c := 0]
    ensures |Remove(s, c)| == |s| - multiset(s)[c]
    decreases |s|
  {
    if |s| > 0 {
      assert s == [s[0]] + s[1..];
      RemoveCounts(s[1..], c);
    }
  }

  /** Deleting characters commutes with concatenation: the kept characters stay in order. */
  lemma {:induction false} RemoveAppend(a: string, b: string, c: char)
    ensures Remove(a + b, c) == Remove(a, c) + Remove(b, c)
    decreases |a|
  {
    if |a| == 0 {
      assert a + b == b;
    } else {
      assert (a + b)[0] == a[0];
      assert (a + b)[1..] == a[1..] + b;
      RemoveAppend(a[1..], b, c);
    }
  }

  /** Deleting a character that does not occur changes nothing. */
  lemma {:induction false} RemoveAbsent(s: string, c: char)
    requires c !in s
    ensures Remove(s, c) == s
    decreases |s|
  {
    if |s| > 0 {
      assert s == [s[0]] + s[1..];
      RemoveAbsent(s[1..], c);
    }
  }

  /** `len(s.split(c))` is one more than `s.count(c)`. */
  lemma {:induction false} SplitCount(s: string, c: char)
    ensures |Split(s, [c])| == multiset(s)[c] + 1
    decreases |s|
  {
    match Find(s, [c], 0)
    case None =>
      forall j | 0 <= j < |s|
        ensures s[j] != c
      {
        assert !OccursAt(s, [c], j);
        assert s[j..j + 1] == [s[j]];
      }
      assert c !in multiset(s);
    case Some(i) =>
      var rest := s[i + 1..];
      assert s == s[..i] + [c] + rest;
      forall j | 0 <= j < i
        ensures s[..i][j] != c
      {
        assert !OccursAt(s, [c], j);
        assert s[j..j + 1] == [s[j]];
      }
      assert c !in multiset(s[..i]);
      SplitCount(rest, c);
  }
}
