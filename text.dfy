/**
 * String primitives with Python's meaning: `str.index`, `str.split`,
 * `str.startswith`/`str.endswith`, and a regular-expression search of the
 * shape `literal([a-zA-Z0-9_-]+)` as used for Drive ids.
 */
module Text {
  import opened Wrappers

  predicate OccursAt(s: string, pat: string, i: nat)
  {
    i + |pat| <= |s| && s[i..i + |pat|] == pat
  }

  predicate StartsWith(s: string, prefix: string)
  {
    OccursAt(s, prefix, 0)
  }

  predicate EndsWith(s: string, suffix: string)
  {
    |suffix| <= |s| && s[|s| - |suffix|..] == suffix
  }

  /** `s.index(pat, from)`: the first occurrence of `pat` at or after `from`; `None` for `ValueError`. */
  function IndexFrom(s: string, pat: string, from: nat): (r: Option<nat>)
    decreases |s| - from
    ensures r.Some? ==> from <= r.value && OccursAt(s, pat, r.value)
    ensures r.Some? ==> forall j :: from <= j < r.value ==> !OccursAt(s, pat, j)
    ensures r.None? ==> forall j :: from <= j ==> !OccursAt(s, pat, j)
  {
    if |s| < from + |pat| then None
    else if OccursAt(s, pat, from) then Some(from)
    else IndexFrom(s, pat, from + 1)
  }

  /** An occurrence with none before it, from `from` on, is what `IndexFrom` finds. */
  lemma IndexFromFirst(s: string, pat: string, from: nat, i: nat)
    requires from <= i && OccursAt(s, pat, i)
    requires forall j :: from <= j < i ==> !OccursAt(s, pat, j)
    ensures IndexFrom(s, pat, from) == Some(i)
  {
  }

  /** The character class `[a-zA-Z0-9_-]`. */
  predicate IsIdChar(c: char)
  {
    ('a' <= c <= 'z') || ('A' <= c <= 'Z') || ('0' <= c <= '9') || c == '_' || c == '-'
  }

  predicate AllIdChars(s: string)
  {
    forall k :: 0 <= k < |s| ==> IsIdChar(s[k])
  }

  /** Length of the longest run of id characters starting at `j` (greedy `+`). */
  function IdRun(s: string, j: nat): (n: nat)
    requires j <= |s|
    decreases |s| - j
    ensures j + n <= |s| && AllIdChars(s[j..j + n])
    ensures j + n == |s| || !IsIdChar(s[j + n])
  {
    if j == |s| || !IsIdChar(s[j]) then 0
    else
      var n := 1 + IdRun(s, j + 1);
      assert s[j..j + n] == [s[j]] + s[j + 1..j + n];
      n
  }

  /** `lit([a-zA-Z0-9_-]+)` can match at position `i`. */
  predicate CaptureAt(s: string, lit: string, i: nat)
  {
    OccursAt(s, lit, i) && i + |lit| < |s| && IsIdChar(s[i + |lit|])
  }

  /** The leftmost position at or after `from` where the pattern matches. */
  function FirstCapture(s: string, lit: string, from: nat): (r: Option<nat>)
    decreases |s| - from
    ensures r.Some? ==> from <= r.value && CaptureAt(s, lit, r.value)
    ensures r.Some? ==> forall j :: from <= j < r.value ==> !CaptureAt(s, lit, j)
    ensures r.None? ==> forall j :: from <= j ==> !CaptureAt(s, lit, j)
  {
    if |s| <= from + |lit| then None
    else if CaptureAt(s, lit, from) then Some(from)
    else FirstCapture(s, lit, from + 1)
  }

  /** `id` is the whole run of id characters that starts at `j`. */
  predicate MaximalIdRunAt(s: string, j: nat, id: string)
  {
    j + |id| <= |s| && s[j..j + |id|] == id && AllIdChars(id)
    && (j + |id| == |s| || !IsIdChar(s[j + |id|]))
  }

  /** The greedy run is determined by its start. */
  lemma MaximalIdRunUnique(s: string, j: nat, a: string, b: string)
    requires MaximalIdRunAt(s, j, a) && MaximalIdRunAt(s, j, b)
    ensures a == b
  {
    if |a| < |b| {
      RunCharAt(s, j, b, |a|);
      assert false;
    } else if |b| < |a| {
      RunCharAt(s, j, a, |b|);
      assert false;
    }
  }

  lemma RunCharAt(s: string, j: nat, x: string, k: nat)
    requires MaximalIdRunAt(s, j, x) && k < |x|
    ensures j + k < |s| && s[j + k] == x[k] && IsIdChar(s[j + k])
  {
    assert s[j..j + |x|][k] == x[k];
  }

  /** The leftmost match of `lit([a-zA-Z0-9_-]+)` in `s` starts at `i`. */
  predicate LeftmostCapture(s: string, lit: string, i: nat)
  {
    CaptureAt(s, lit, i) && forall j :: 0 <= j < i ==> !CaptureAt(s, lit, j)
  }

  /** `re.search(lit + "([a-zA-Z0-9_-]+)", s).group(1)`, or `None` when there is no match. */
  function SearchId(s: string, lit: string): (r: Option<string>)
    ensures r.None? <==> forall i :: !CaptureAt(s, lit, i)
    ensures r.Some? ==> |r.value| > 0
    ensures r.Some? ==> exists i: nat :: LeftmostCapture(s, lit, i) && MaximalIdRunAt(s, i + |lit|, r.value)
  {
    match FirstCapture(s, lit, 0)
    case None => None
    case Some(i) =>
      var j := i + |lit|;
      var id := s[j..j + IdRun(s, j)];
      assert LeftmostCapture(s, lit, i) && MaximalIdRunAt(s, j, id);
      Some(id)
  }

  /** `s.split(sep)` for a one-character separator. */
  function Split(s: string, sep: char): (parts: seq<string>)
    decreases |s|
    ensures |parts| >= 1
    ensures sep !in parts[0]
    ensures sep in s <==> |parts| >= 2
    ensures sep !in s ==> parts == [s]
  {
    if s == [] then [""]
    else
      var rest := Split(s[1..], sep);
      assert [s[0]] + s[1..] == s;
      if s[0] == sep then [""] + rest else [[s[0]] + rest[0]] + rest[1..]
  }

  /** Splitting at the first separator: the text before it is the first field. */
  lemma {:induction false} SplitFirst(a: string, sep: char, b: string)
    requires sep !in a
    ensures Split(a + [sep] + b, sep) == [a] + Split(b, sep)
    decreases |a|
  {
    if a == [] {
      assert a + [sep] + b == [sep] + b;
      assert ([sep] + b)[1..] == b;
    } else {
      SplitFirst(a[1..], sep, b);
      assert (a + [sep] + b)[1..] == a[1..] + [sep] + b;
      assert [a[0]] + a[1..] == a;
    }
  }
}
