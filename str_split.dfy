/** Python's `str.split(sep, 1)`: cut a string at the first occurrence of a
    non-empty separator, scanning from the left. */
module StrSplit {
  import opened Wrappers

  /** `sep` occurs in `s` starting at index `i`. */
  predicate OccursAt(s: string, sep: string, i: int) {
    0 <= i && i + |sep| <= |s| && s[i..i + |sep|] == sep
  }

  /** `sep` occurs somewhere in `s` (Python's `sep in s`). */
  predicate Contains(s: string, sep: string) {
    exists i :: 0 <= i <= |s| && OccursAt(s, sep, i)
  }

  /** `i` is the first index at which `sep` occurs in `s`. */
  predicate FirstOccurrence(s: string, sep: string, i: int) {
    OccursAt(s, sep, i) && forall j :: 0 <= j < i ==> !OccursAt(s, sep, j)
  }

  /** The lowest index at or after `from` where `sep` occurs in `s`, or None
      when there is none (Python's `s.find(sep, from)`, with -1 as None). */
  function FindFrom(s: string, sep: string, from: nat): (r: Option<nat>)
    requires |sep| > 0
    decreases |s| - from
    ensures r.Some? ==> from <= r.value && OccursAt(s, sep, r.value)
    ensures forall j :: from <= j && (r.None? || j < r.value) ==> !OccursAt(s, sep, j)
  {
    if from + |sep| > |s| then None
    else if s[from..from + |sep|] == sep then Some(from)
    else FindFrom(s, sep, from + 1)
  }

  /** `s.split(sep, 1)`: one part (the whole string) when `sep` does not occur,
      otherwise the text before the first occurrence and everything after it. */
  function SplitOnce(s: string, sep: string): (parts: seq<string>)
    requires |sep| > 0
    ensures |parts| == 1 || |parts| == 2
    ensures |parts| == 1 <==> !Contains(s, sep)
    ensures |parts| == 1 ==> parts[0] == s
    ensures |parts| == 2 ==> s == parts[0] + sep + parts[1] && FirstOccurrence(s, sep, |parts[0]|)
  {
    match FindFrom(s, sep, 0)
    case None => [s]
    case Some(i) =>
      assert s == s[..i] + sep + s[i + |sep|..];
      [s[..i], s[i + |sep|..]]
  }

  /** A split of `s` around an occurrence of `sep` that no earlier occurrence
      precedes is the one `SplitOnce` returns. */
  lemma SplitAtFirstOccurrence(s: string, sep: string, a: string, b: string)
    requires |sep| > 0
    requires s == a + sep + b
    requires forall j :: 0 <= j < |a| ==> !OccursAt(s, sep, j)
    ensures SplitOnce(s, sep) == [a, b]
  {
    assert s[|a|..|a| + |sep|] == sep;
    assert OccursAt(s, sep, |a|);
    var parts := SplitOnce(s, sep);
    var i := |parts[0]|;
    assert OccursAt(s, sep, i);
    assert i == |a|;
    assert parts[0] == s[..i] == a;
    assert parts[1] == s[i + |sep|..] == b;
  }

  /** Where the split falls depends only on the text up to and including any
      occurrence of `sep`: what follows it can change the second part only. */
  lemma SplitHeadDependsOnPrefix(s: string, t: string, sep: string, k: nat)
    requires |sep| > 0
    requires OccursAt(s, sep, k)
    requires k + |sep| <= |t| && s[..k + |sep|] == t[..k + |sep|]
    ensures |SplitOnce(s, sep)| == 2 && |SplitOnce(t, sep)| == 2
    ensures SplitOnce(s, sep)[0] == SplitOnce(t, sep)[0]
  {
    var parts := SplitOnce(s, sep);
    var i := |parts[0]|;
    assert FirstOccurrence(s, sep, i);
    assert forall j :: 0 <= j < i ==> !OccursAt(s, sep, j);
    assert i <= k;
    forall m | 0 <= m < k + |sep| ensures s[m] == t[m] {
      assert s[m] == s[..k + |sep|][m];
    }
    forall j | 0 <= j <= i
      ensures OccursAt(t, sep, j) == OccursAt(s, sep, j)
    {
      assert s[j..j + |sep|] == t[j..j + |sep|];
    }
    assert t == s[..i] + sep + t[i + |sep|..] by {
      assert t[..i] == s[..i];
      assert t[i..i + |sep|] == sep;
    }
    SplitAtFirstOccurrence(t, sep, s[..i], t[i + |sep|..]);
  }
}
