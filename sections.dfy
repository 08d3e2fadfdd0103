/**
 * `extract_bullet_items_from_section`: the bullet lines of the markdown
 * section `## <name>:` of a document, found with
 * `re.search(r"##\s*NAME\s*:\s*(.*?)(?=\n##\s|\Z)", content, re.DOTALL | re.IGNORECASE)`.
 * Whitespace and line breaks are Python's ASCII ones, case folding is ASCII.
 */
module Sections {
  import opened Wrappers
  import opened Text

  /**
   * `\s`, and what `str.strip` removes: the ASCII characters for which
   * `str.isspace` holds, that is space, `\t \n \v \f \r` and `\x1c`-`\x1f`.
   */
  predicate IsSpace(c: char)
  {
    c == ' ' || c == '\t' || c == '\n' || c == '\r' || c == '\U{B}' || c == '\U{C}'
    || c == '\U{1C}' || c == '\U{1D}' || c == '\U{1E}' || c == '\U{1F}'
  }

  /**
   * Line boundaries of `str.splitlines` among the ASCII characters:
   * `\n \v \f \r` and `\x1c`-`\x1e`; `\r\n` counts as one.
   */
  predicate IsLineBreak(c: char)
  {
    c == '\n' || c == '\r' || c == '\U{B}' || c == '\U{C}' || c == '\U{1C}' || c == '\U{1D}' || c == '\U{1E}'
  }

  function Lower(c: char): char
  {
    if 'A' <= c <= 'Z' then (c as int + 32) as char else c
  }

  predicate SameIgnoringCase(a: string, b: string)
  {
    |a| == |b| && forall k :: 0 <= k < |a| ==> Lower(a[k]) == Lower(b[k])
  }

  predicate AllSpaces(s: string, from: nat, to: nat)
    requires from <= to <= |s|
  {
    forall m :: from <= m < to ==> IsSpace(s[m])
  }

  /** Whitespace of a slice is whitespace of the text at the shifted positions. */
  lemma SpacesOfSlice(s: string, i: nat, from: nat, to: nat)
    requires i <= |s| && from <= to <= |s| - i && AllSpaces(s[i..], from, to)
    ensures AllSpaces(s, i + from, i + to)
  {
    forall m | i + from <= m < i + to ensures IsSpace(s[m]) {
      assert s[m] == s[i..][m - i];
    }
  }

  /** Greedy `\s*` from `j`: the first non-space position. */
  function SkipSpaces(s: string, j: nat): (k: nat)
    requires j <= |s|
    decreases |s| - j
    ensures j <= k <= |s| && AllSpaces(s, j, k)
    ensures k == |s| || !IsSpace(s[k])
  {
    if j < |s| && IsSpace(s[j]) then SkipSpaces(s, j + 1) else j
  }

  /**
   * `NAME\s*:` with the name at `a`: the position of the colon, when the
   * name matches there ignoring case and a colon follows it after
   * whitespace alone.
   */
  function ColonAfterName(s: string, name: string, a: nat): (r: Option<nat>)
    ensures r.Some? ==> a + |name| <= r.value < |s| && s[r.value] == ':'
  {
    if !(a + |name| <= |s| && SameIgnoringCase(s[a..a + |name|], name)) then None
    else
      var b := SkipSpaces(s, a + |name|);
      if b < |s| && s[b] == ':' then Some(b) else None
  }

  /** What `ColonAfterName` finds: the name, then only whitespace, then the colon; or no such colon. */
  lemma ColonAfterNameMatches(s: string, name: string, a: nat)
    ensures ColonAfterName(s, name, a).Some? ==>
      SameIgnoringCase(s[a..a + |name|], name) && AllSpaces(s, a + |name|, ColonAfterName(s, name, a).value)
    ensures ColonAfterName(s, name, a).None? ==> (!(a + |name| <= |s| && SameIgnoringCase(s[a..a + |name|], name))
      || forall b :: a + |name| <= b < |s| && AllSpaces(s, a + |name|, b) ==> s[b] != ':')
  {
  }

  /**
   * The backtracking `\s*` between `##` and the name: the regex engine
   * tries the name at the greedy end `a` first and then one position
   * earlier at a time, down to `lo`. The start it settles on is the latest
   * one from which `NAME\s*:` follows, or `lo` when there is none.
   */
  function LatestStart(s: string, name: string, lo: nat, a: nat): (c: nat)
    requires lo <= a
    decreases a - lo
    ensures lo <= c <= a
    ensures forall d :: c < d <= a ==> ColonAfterName(s, name, d).None?
    ensures ColonAfterName(s, name, c).None? ==> c == lo
  {
    if a == lo || ColonAfterName(s, name, a).Some? then a else LatestStart(s, name, lo, a - 1)
  }

  /** The position of the `:` of a header `##\s*NAME\s*:` that starts at `i`. */
  function ColonAt(s: string, name: string, i: nat): (r: Option<nat>)
    ensures r.Some? ==> i + 2 <= r.value < |s| && s[r.value] == ':'
  {
    if !OccursAt(s, "##", i) then None
    else ColonAfterName(s, name, LatestStart(s, name, i + 2, SkipSpaces(s, i + 2)))
  }

  /**
   * A header starts at `i` exactly when `##` is there and the name, followed
   * by whitespace and a colon, starts somewhere within the whitespace after
   * `##`; the colon found is the one after the latest such start.
   */
  lemma ColonAtMatches(s: string, name: string, i: nat)
    ensures ColonAt(s, name, i).Some? ==>
      OccursAt(s, "##", i) &&
      exists a :: (i + 2 <= a <= SkipSpaces(s, i + 2) &&
        ColonAfterName(s, name, a) == ColonAt(s, name, i) &&
        forall c :: a < c <= SkipSpaces(s, i + 2) ==> ColonAfterName(s, name, c).None?)
    ensures ColonAt(s, name, i).None? ==>
      !OccursAt(s, "##", i) || forall a :: i + 2 <= a <= SkipSpaces(s, i + 2) ==> ColonAfterName(s, name, a).None?
  {
    if OccursAt(s, "##", i) {
      var a := LatestStart(s, name, i + 2, SkipSpaces(s, i + 2));
      assert ColonAfterName(s, name, a) == ColonAt(s, name, i);
    }
  }

  /** The leftmost position at or after `from` where the header matches (`re.search` is leftmost). */
  function FindHeader(s: string, name: string, from: nat): (r: Option<nat>)
    decreases |s| - from
    ensures r.Some? ==> from <= r.value && ColonAt(s, name, r.value).Some?
    ensures r.Some? ==> forall i :: from <= i < r.value ==> ColonAt(s, name, i).None?
    ensures r.None? ==> forall i: nat :: from <= i ==> ColonAt(s, name, i).None?
  {
    if |s| < from + 2 then
      assert forall i: nat :: from <= i ==> !OccursAt(s, "##", i);
      None
    else if ColonAt(s, name, from).Some? then Some(from)
    else FindHeader(s, name, from + 1)
  }

  /** The lookahead `\n##\s` holds at `p`. */
  predicate TerminatorAt(s: string, p: nat)
  {
    p + 4 <= |s| && s[p] == '\n' && s[p + 1] == '#' && s[p + 2] == '#' && IsSpace(s[p + 3])
  }

  /** Where the lazy group `(.*?)` started at `j` stops: the first `\n##\s` or the end `\Z`. */
  function BlockEnd(s: string, j: nat): (p: nat)
    requires j <= |s|
    decreases |s| - j
    ensures j <= p <= |s|
    ensures p < |s| ==> TerminatorAt(s, p)
    ensures forall q :: j <= q < p ==> !TerminatorAt(s, q)
  {
    if j == |s| || TerminatorAt(s, j) then j else BlockEnd(s, j + 1)
  }

  /** `str.lstrip()`: what is left once the leading whitespace is gone. */
  function TrimLeft(s: string): (r: string)
    decreases |s|
    ensures |r| <= |s|
    ensures r == [] || !IsSpace(r[0])
  {
    if s != [] && IsSpace(s[0]) then TrimLeft(s[1..]) else s
  }

  /** `lstrip` drops the leading whitespace and nothing else: a suffix is left, after whitespace only. */
  lemma {:induction false} TrimLeftDropsSpaces(s: string)
    ensures TrimLeft(s) == s[|s| - |TrimLeft(s)|..] && AllSpaces(s, 0, |s| - |TrimLeft(s)|)
    decreases |s|
  {
    if s != [] && IsSpace(s[0]) {
      var r := TrimLeft(s[1..]);
      TrimLeftDropsSpaces(s[1..]);
      SpacesOfSlice(s, 1, 0, |s| - 1 - |r|);
      assert s[1..][|s| - 1 - |r|..] == s[|s| - |r|..];
    }
  }

  /** `str.rstrip()`: what is left once the trailing whitespace is gone; a prefix of the text. */
  function TrimRight(s: string): (r: string)
    decreases |s|
    ensures |r| <= |s| && r == s[..|r|]
    ensures r == [] || !IsSpace(r[|r| - 1])
  {
    if s != [] && IsSpace(s[|s| - 1]) then TrimRight(s[..|s| - 1]) else s
  }

  /** `rstrip` drops the trailing whitespace and nothing else: only whitespace follows what is left. */
  lemma {:induction false} TrimRightDropsSpaces(s: string)
    ensures AllSpaces(s, |TrimRight(s)|, |s|)
    decreases |s|
  {
    if s != [] && IsSpace(s[|s| - 1]) {
      var r := TrimRight(s[..|s| - 1]);
      TrimRightDropsSpaces(s[..|s| - 1]);
      assert forall m :: |r| <= m < |s| - 1 ==> s[m] == s[..|s| - 1][m];
    }
  }

  /** `str.strip()`: no whitespace is left at either end. */
  function Strip(s: string): (r: string)
    ensures r == [] || (!IsSpace(r[0]) && !IsSpace(r[|r| - 1]))
  {
    var t := TrimLeft(s);
    var r := TrimRight(t);
    assert r != [] ==> r[0] == t[0];
    r
  }

  /** `strip` leaves a slice of the text with only whitespace before and after it. */
  lemma StripDropsSpaces(s: string)
    ensures exists i: nat :: (i <= |s| && AllSpaces(s, 0, i) && i + |Strip(s)| <= |s| &&
      Strip(s) == s[i..i + |Strip(s)|] && AllSpaces(s, i + |Strip(s)|, |s|))
  {
    var t := TrimLeft(s);
    var r := TrimRight(t);
    var i := |s| - |t|;
    TrimLeftDropsSpaces(s);
    TrimRightDropsSpaces(t);
    assert r == s[i..i + |r|];
    SpacesOfSlice(s, i, |r|, |t|);
    assert AllSpaces(s, 0, i) && i + |r| <= |s| && r == s[i..i + |r|] && AllSpaces(s, i + |r|, |s|);
  }

  /** A text with no whitespace at either end is its own `strip`. */
  lemma StripKeeps(s: string)
    requires s == [] || (!IsSpace(s[0]) && !IsSpace(s[|s| - 1]))
    ensures Strip(s) == s
  {
  }

  /** The end of the line that starts at `j`. */
  function LineEnd(s: string, j: nat): (k: nat)
    requires j <= |s|
    decreases |s| - j
    ensures j <= k <= |s| && (k == |s| || IsLineBreak(s[k]))
    ensures forall m :: j <= m < k ==> !IsLineBreak(s[m])
  {
    if j == |s| || IsLineBreak(s[j]) then j else LineEnd(s, j + 1)
  }

  predicate NoBreaks(l: string)
  {
    forall m :: 0 <= m < |l| ==> !IsLineBreak(l[m])
  }

  /** Where the next line starts after the break at `k`: `\r\n` is one break. */
  function BreakEnd(s: string, k: nat): (next: nat)
    requires k < |s|
    ensures k < next <= k + 2 && next <= |s|
  {
    if s[k] == '\r' && k + 1 < |s| && s[k + 1] == '\n' then k + 2 else k + 1
  }

  /**
   * `str.splitlines()`: no trailing empty line, `\r\n` is one break. The
   * lines hold no break, and there are none exactly for the empty text.
   */
  function SplitLines(s: string): (lines: seq<string>)
    decreases |s|
    ensures forall l :: l in lines ==> NoBreaks(l)
    ensures lines == [] <==> s == []
  {
    if s == [] then []
    else
      var k := LineEnd(s, 0);
      if k == |s| then [s]
      else
        assert NoBreaks(s[..k]) by {
          forall m | 0 <= m < k ensures !IsLineBreak(s[..k][m]) {
            assert s[..k][m] == s[m];
          }
        }
        [s[..k]] + SplitLines(s[BreakEnd(s, k)..])
  }

  /** The characters of `s` that are not line breaks, in order. */
  function NonBreaks(s: string): string
    decreases |s|
  {
    if s == [] then [] else (if IsLineBreak(s[0]) then [] else [s[0]]) + NonBreaks(s[1..])
  }

  lemma {:induction false} NonBreaksAppend(a: string, b: string)
    ensures NonBreaks(a + b) == NonBreaks(a) + NonBreaks(b)
    decreases |a|
  {
    if a == [] {
      assert a + b == b;
    } else {
      assert (a + b)[0] == a[0];
      assert (a + b)[1..] == a[1..] + b;
      NonBreaksAppend(a[1..], b);
      var c := if IsLineBreak(a[0]) then [] else [a[0]];
      calc {
        NonBreaks(a + b);
        c + NonBreaks(a[1..] + b);
        c + (NonBreaks(a[1..]) + NonBreaks(b));
        (c + NonBreaks(a[1..])) + NonBreaks(b);
        NonBreaks(a) + NonBreaks(b);
      }
    }
  }

  lemma {:induction false} NonBreaksOfLine(l: string)
    requires NoBreaks(l)
    ensures NonBreaks(l) == l
    decreases |l|
  {
    if l != [] {
      NonBreaksOfLine(l[1..]);
      assert [l[0]] + l[1..] == l;
    }
  }

  /** Breaks at the front leave nothing behind. */
  lemma {:induction false} NonBreaksSkip(t: string, n: nat)
    requires n <= |t| && forall m :: 0 <= m < n ==> IsLineBreak(t[m])
    ensures NonBreaks(t) == NonBreaks(t[n..])
    decreases n
  {
    if n > 0 {
      NonBreaksSkip(t[1..], n - 1);
      assert t[1..][n - 1..] == t[n..];
    }
  }

  /** A line, its break and the rest: the line's text, then the rest's. */
  lemma LinePieces(s: string, k: nat)
    requires k < |s| && NoBreaks(s[..k]) && IsLineBreak(s[k])
    ensures NonBreaks(s) == s[..k] + NonBreaks(s[BreakEnd(s, k)..])
  {
    var next := BreakEnd(s, k);
    assert s == s[..k] + s[k..];
    NonBreaksAppend(s[..k], s[k..]);
    NonBreaksOfLine(s[..k]);
    NonBreaksSkip(s[k..], next - k);
    assert s[k..][next - k..] == s[next..];
  }

  function Concat(lines: seq<string>): string
  {
    if lines == [] then [] else lines[0] + Concat(lines[1..])
  }

  /** The lines of `splitlines` hold every character of the text that is not a break, in order. */
  lemma {:induction false} SplitLinesKeepsText(s: string)
    ensures Concat(SplitLines(s)) == NonBreaks(s)
    decreases |s|
  {
    if s != [] {
      var k := LineEnd(s, 0);
      if k == |s| {
        assert s[..k] == s;
        NonBreaksOfLine(s);
        assert Concat([s]) == s + Concat([]);
      } else {
        var rest := SplitLines(s[BreakEnd(s, k)..]);
        SplitLinesKeepsText(s[BreakEnd(s, k)..]);
        LinePieces(s, k);
        assert ([s[..k]] + rest)[1..] == rest;
      }
    }
  }

  /** `"\n".join(lines)`. */
  function JoinLines(lines: seq<string>): string
  {
    if lines == [] then []
    else if |lines| == 1 then lines[0]
    else lines[0] + "\n" + JoinLines(lines[1..])
  }

  /** A text without breaks is one line. */
  lemma SplitLinesOne(l: string)
    requires l != [] && NoBreaks(l)
    ensures SplitLines(l) == [l]
  {
    assert LineEnd(l, 0) == |l|;
  }

  /** A break-free line, a newline and a non-empty rest: the line, then the rest's lines. */
  lemma SplitLinesCons(l: string, j: string)
    requires NoBreaks(l) && j != []
    ensures SplitLines(l + "\n" + j) == [l] + SplitLines(j)
  {
    var s := l + "\n" + j;
    assert s[..|l|] == l;
    assert s[|l|] == '\n';
    assert forall m :: 0 <= m < |l| ==> s[m] == l[m];
    var k := LineEnd(s, 0);
    assert k == |l|;
    assert BreakEnd(s, k) == |l| + 1;
    assert s[|l| + 1..] == j;
  }

  /**
   * `splitlines` takes apart what `"\n".join` puts together: break-free
   * lines joined with newlines come back, when the last line is not empty.
   */
  lemma {:induction false} SplitJoinedLines(lines: seq<string>)
    requires forall l :: l in lines ==> NoBreaks(l)
    requires lines == [] || lines[|lines| - 1] != []
    ensures SplitLines(JoinLines(lines)) == lines
    decreases |lines|
  {
    if |lines| == 1 {
      SplitLinesOne(lines[0]);
    } else if |lines| > 1 {
      var rest := lines[1..];
      assert forall x :: x in rest ==> x in lines;
      SplitJoinedLines(rest);
      assert JoinLines(rest) != [];
      SplitLinesCons(lines[0], JoinLines(rest));
    }
  }

  /** A stripped line that starts with `-`. */
  predicate IsBullet(x: string)
  {
    |x| > 0 && x[0] == '-' && !IsSpace(x[|x| - 1])
  }

  /**
   * `[line.strip() for line in lines if line.strip().startswith("-")]`: the
   * items are exactly the stripped lines that start with `-`.
   */
  function Bullets(lines: seq<string>): (r: seq<string>)
    ensures |r| <= |lines|
    ensures forall x :: x in r ==> IsBullet(x)
  {
    if lines == [] then []
    else
      var x := Strip(lines[0]);
      var rest := Bullets(lines[1..]);
      if StartsWith(x, "-") then [x] + rest else rest
  }

  /** An item is kept exactly when it is a line, stripped, that starts with `-`. */
  lemma {:induction false} BulletMembers(lines: seq<string>, x: string)
    ensures x in Bullets(lines) <==> exists l :: l in lines && Strip(l) == x && StartsWith(x, "-")
    decreases |lines|
  {
    if lines != [] {
      BulletMembers(lines[1..], x);
      assert forall l :: l in lines <==> l == lines[0] || l in lines[1..];
    }
  }

  /** The filter keeps the order of the lines: filtering a concatenation concatenates the results. */
  lemma {:induction false} BulletsAppend(a: seq<string>, b: seq<string>)
    ensures Bullets(a + b) == Bullets(a) + Bullets(b)
    decreases |a|
  {
    if a == [] {
      assert a + b == b;
    } else {
      assert (a + b)[0] == a[0];
      assert (a + b)[1..] == a[1..] + b;
      BulletsAppend(a[1..], b);
      var x := Strip(a[0]);
      var c := if StartsWith(x, "-") then [x] else [];
      assert Bullets(a) == c + Bullets(a[1..]);
      assert Bullets(a + b) == c + (Bullets(a[1..]) + Bullets(b));
    }
  }

  /**
   * `block.strip().splitlines()`, keeping the stripped lines that start
   * with `-`: exactly those, in the order of the lines.
   */
  function ItemsOf(block: string): (r: seq<string>)
    ensures forall x :: x in r ==> IsBullet(x)
  {
    Bullets(SplitLines(Strip(block)))
  }

  /** The items of a block are exactly its stripped lines that start with `-`. */
  lemma ItemsOfMembers(block: string, x: string)
    ensures x in ItemsOf(block) <==> exists l :: l in SplitLines(Strip(block)) && Strip(l) == x && StartsWith(x, "-")
  {
    BulletMembers(SplitLines(Strip(block)), x);
  }

  /** The items of a block whose lines run `a` and then `b` are those of `a`, then those of `b`. */
  lemma ItemsInLineOrder(block: string, a: seq<string>, b: seq<string>)
    requires SplitLines(Strip(block)) == a + b
    ensures ItemsOf(block) == Bullets(a) + Bullets(b)
  {
    BulletsAppend(a, b);
  }

  /** The colon of the leftmost header; `None` exactly when no header matches anywhere. */
  function HeaderColon(content: string, name: string): (r: Option<nat>)
    ensures r.Some? ==> r.value < |content| && content[r.value] == ':'
    ensures r.None? <==> forall i: nat :: ColonAt(content, name, i).None?
  {
    match FindHeader(content, name, 0)
    case None => None
    case Some(i) => ColonAt(content, name, i)
  }

  lemma HeaderColonAt(content: string, name: string, i: nat, b: nat)
    requires FindHeader(content, name, 0) == Some(i) && ColonAt(content, name, i) == Some(b)
    ensures HeaderColon(content, name) == Some(b)
  {
  }

  /** The source as written: the group starts after the greedy `\s*` that follows the colon. */
  function SectionAsWritten(content: string, name: string): (r: Option<string>)
    ensures r.None? <==> forall i: nat :: ColonAt(content, name, i).None?
  {
    match HeaderColon(content, name)
    case None => None
    case Some(b) => Some(BlockAsWritten(content, b))
  }

  /** The group as written for the header whose colon is at `b`: it starts after the whitespace that follows. */
  function BlockAsWritten(content: string, b: nat): string
    requires b < |content|
  {
    var j := SkipSpaces(content, b + 1);
    content[j..BlockEnd(content, j)]
  }

  /** The group as the comment describes it: it starts right after the colon. */
  function BlockCorrected(content: string, b: nat): string
    requires b < |content|
  {
    content[b + 1..BlockEnd(content, b + 1)]
  }

  /**
   * `extract_bullet_items_from_section`, as written: `[]` without a header;
   * otherwise exactly the stripped lines of the block that start with `-`.
   */
  function BulletItems(content: string, name: string): (r: seq<string>)
    ensures (forall i: nat :: ColonAt(content, name, i).None?) ==> r == []
    ensures forall x :: x in r ==> IsBullet(x)
  {
    match SectionAsWritten(content, name)
    case None => []
    case Some(block) => ItemsOf(block)
  }

  /**
   * The section as the comment above the regex describes it: the text
   * between `NAME:` and the next `\n##\s` header (or the end).
   */
  function SectionCorrected(content: string, name: string): (r: Option<string>)
    ensures r.None? <==> forall i: nat :: ColonAt(content, name, i).None?
  {
    match HeaderColon(content, name)
    case None => None
    case Some(b) => Some(BlockCorrected(content, b))
  }

  /** `extract_bullet_items_from_section` with the section bounded by the next header. */
  function BulletItemsCorrected(content: string, name: string): (r: seq<string>)
    ensures (forall i: nat :: ColonAt(content, name, i).None?) ==> r == []
    ensures forall x :: x in r ==> IsBullet(x)
  {
    match SectionCorrected(content, name)
    case None => []
    case Some(block) => ItemsOf(block)
  }

  /**
   * `extract_bullet_items_from_section` returns `x` exactly when a header
   * matches and `x` is a stripped line of its block that starts with `-`.
   */
  lemma BulletItemsMembers(content: string, name: string, x: string)
    ensures x in BulletItems(content, name) <==>
      SectionAsWritten(content, name).Some? && exists l :: l in SplitLines(Strip(SectionAsWritten(content, name).value)) && Strip(l) == x && StartsWith(x, "-")
  {
    if SectionAsWritten(content, name).Some? {
      ItemsOfMembers(SectionAsWritten(content, name).value, x);
    }
  }

  /** The same for the corrected section. */
  lemma BulletItemsCorrectedMembers(content: string, name: string, x: string)
    ensures x in BulletItemsCorrected(content, name) <==>
      SectionCorrected(content, name).Some? && exists l :: l in SplitLines(Strip(SectionCorrected(content, name).value)) && Strip(l) == x && StartsWith(x, "-")
  {
    if SectionCorrected(content, name).Some? {
      ItemsOfMembers(SectionCorrected(content, name).value, x);
    }
  }

  /** Leading whitespace does not change what `lstrip` leaves. */
  lemma {:induction false} TrimLeftSkip(s: string, k: nat)
    requires k <= |s| && AllSpaces(s, 0, k)
    ensures TrimLeft(s[k..]) == TrimLeft(s)
    decreases k
  {
    if k > 0 {
      assert AllSpaces(s[1..], 0, k - 1) by {
        forall m | 0 <= m < k - 1 ensures IsSpace(s[1..][m]) {
          assert s[1..][m] == s[m + 1];
        }
      }
      TrimLeftSkip(s[1..], k - 1);
      assert s[1..][k - 1..] == s[k..];
    }
  }

  /** The lazy group ends at the same place from any start inside the block. */
  lemma BlockEndFrom(s: string, a: nat, j: nat)
    requires a <= |s| && a <= j <= BlockEnd(s, a)
    ensures BlockEnd(s, j) == BlockEnd(s, a)
  {
  }

  /** The corrected section is the text after the colon of the first header, up to the next header. */
  lemma CorrectedBlock(content: string, name: string, i: nat, b: nat)
    requires FindHeader(content, name, 0) == Some(i) && ColonAt(content, name, i) == Some(b)
    ensures SectionCorrected(content, name) == Some(content[b + 1..BlockEnd(content, b + 1)])
  {
    HeaderColonAt(content, name, i, b);
    CorrectedAt(content, name, b);
  }

  lemma CorrectedAt(content: string, name: string, b: nat)
    requires HeaderColon(content, name) == Some(b)
    ensures SectionCorrected(content, name) == Some(BlockCorrected(content, b))
  {
  }

  /** The section as written starts after the whitespace that follows the colon. */
  lemma AsWrittenBlock(content: string, name: string, i: nat, b: nat)
    requires FindHeader(content, name, 0) == Some(i) && ColonAt(content, name, i) == Some(b)
    ensures SectionAsWritten(content, name)
      == Some(content[SkipSpaces(content, b + 1)..BlockEnd(content, SkipSpaces(content, b + 1))])
  {
    HeaderColonAt(content, name, i, b);
    AsWrittenAt(content, name, b);
  }

  lemma AsWrittenAt(content: string, name: string, b: nat)
    requires HeaderColon(content, name) == Some(b)
    ensures SectionAsWritten(content, name) == Some(BlockAsWritten(content, b))
  {
  }

  lemma CorrectedItems(content: string, name: string, block: string)
    requires SectionCorrected(content, name) == Some(block)
    ensures BulletItemsCorrected(content, name) == ItemsOf(block)
  {
  }

  lemma AsWrittenItems(content: string, name: string, block: string)
    requires SectionAsWritten(content, name) == Some(block)
    ensures BulletItems(content, name) == ItemsOf(block)
  {
  }

  /** A block of whitespace holds no items. */
  lemma BlankBlockHasNoItems(block: string)
    requires AllSpaces(block, 0, |block|)
    ensures ItemsOf(block) == []
  {
    TrimLeftSkip(block, |block|);
    assert block[|block|..] == [];
    assert Strip(block) == [];
  }

  /** With the correction, a section with no text before the next header has no items. */
  lemma EmptySectionHasNoItems(content: string, name: string, i: nat, b: nat)
    requires FindHeader(content, name, 0) == Some(i) && ColonAt(content, name, i) == Some(b)
    requires AllSpaces(content, b + 1, BlockEnd(content, b + 1))
    ensures BulletItemsCorrected(content, name) == []
  {
    var block := content[b + 1..BlockEnd(content, b + 1)];
    CorrectedBlock(content, name, i, b);
    CorrectedItems(content, name, block);
    assert AllSpaces(block, 0, |block|) by {
      forall m | 0 <= m < |block| ensures IsSpace(block[m]) {
        assert block[m] == content[b + 1 + m];
      }
    }
    BlankBlockHasNoItems(block);
  }

  /**
   * Skipping the whitespace after the colon first changes nothing when the
   * block holds some text: the lazy group still stops at the same header,
   * and `strip` removes the skipped whitespace anyway.
   */
  lemma SkipInsideBlock(content: string, a: nat)
    requires a <= |content| && !AllSpaces(content, a, BlockEnd(content, a))
    ensures SkipSpaces(content, a) <= BlockEnd(content, a)
    ensures BlockEnd(content, SkipSpaces(content, a)) == BlockEnd(content, a)
    ensures Strip(content[SkipSpaces(content, a)..BlockEnd(content, SkipSpaces(content, a))])
      == Strip(content[a..BlockEnd(content, a)])
  {
    var e := BlockEnd(content, a);
    var j := SkipSpaces(content, a);
    SkipStaysInBlock(content, a, e);
    BlockEndFrom(content, a, j);
    StripAfterSkip(content, a, j, e);
  }

  /** Whitespace skipping stops inside a range that is not all whitespace. */
  lemma SkipStaysInBlock(content: string, a: nat, e: nat)
    requires a <= e <= |content| && !AllSpaces(content, a, e)
    ensures SkipSpaces(content, a) <= e
  {
  }

  /** Stripping does not see whitespace that was skipped first. */
  lemma StripAfterSkip(content: string, a: nat, j: nat, e: nat)
    requires a <= j <= e <= |content| && AllSpaces(content, a, j)
    ensures Strip(content[j..e]) == Strip(content[a..e])
  {
    var whole := content[a..e];
    assert AllSpaces(whole, 0, j - a) by {
      forall m | 0 <= m < j - a ensures IsSpace(whole[m]) {
        assert whole[m] == content[a + m];
      }
    }
    TrimLeftSkip(whole, j - a);
    assert whole[j - a..] == content[j..e];
    SameTrimLeftSameStrip(content[j..e], whole);
  }

  lemma SameTrimLeftSameStrip(x: string, y: string)
    requires TrimLeft(x) == TrimLeft(y)
    ensures Strip(x) == Strip(y)
  {
  }

  /** Two sections that strip to the same text have the same items. */
  lemma SameStripSameItems(content: string, name: string, x: string, y: string)
    requires SectionAsWritten(content, name) == Some(x) && SectionCorrected(content, name) == Some(y)
    requires Strip(x) == Strip(y)
    ensures BulletItems(content, name) == BulletItemsCorrected(content, name)
  {
  }

  lemma BlocksAgree(content: string, name: string, b: nat)
    requires b + 1 <= |content| && !AllSpaces(content, b + 1, BlockEnd(content, b + 1))
    requires SectionAsWritten(content, name)
      == Some(content[SkipSpaces(content, b + 1)..BlockEnd(content, SkipSpaces(content, b + 1))])
    requires SectionCorrected(content, name) == Some(content[b + 1..BlockEnd(content, b + 1)])
    ensures BulletItems(content, name) == BulletItemsCorrected(content, name)
  {
    SkipInsideBlock(content, b + 1);
    var j := SkipSpaces(content, b + 1);
    SameStripSameItems(content, name, content[j..BlockEnd(content, j)], content[b + 1..BlockEnd(content, b + 1)]);
  }

  /** The code as written and the correction agree on every section that has some text. */
  lemma SectionsWithTextAgree(content: string, name: string, i: nat, b: nat)
    requires FindHeader(content, name, 0) == Some(i) && ColonAt(content, name, i) == Some(b)
    requires !AllSpaces(content, b + 1, BlockEnd(content, b + 1))
    ensures BulletItems(content, name) == BulletItemsCorrected(content, name)
  {
    AsWrittenBlock(content, name, i, b);
    CorrectedBlock(content, name, i, b);
    BlocksAgree(content, name, b);
  }

  /** A document whose `T` section is empty and is followed by another section holding a bullet. */
  const EmptyThenBullet := "##T:\n##\n-"

  lemma EmptyThenBulletHeader()
    ensures FindHeader(EmptyThenBullet, "T", 0) == Some(0)
    ensures ColonAt(EmptyThenBullet, "T", 0) == Some(3)
  {
    var s := EmptyThenBullet;
    assert OccursAt(s, "##", 0) by { assert s[0..2] == "##"; }
    assert SkipSpaces(s, 2) == 2;
    assert SameIgnoringCase(s[2..3], "T") by { assert s[2..3] == "T"; }
    assert SkipSpaces(s, 3) == 3;
  }

  lemma EmptyThenBulletBlocks()
    ensures BlockEnd(EmptyThenBullet, 4) == 4
    ensures SkipSpaces(EmptyThenBullet, 4) == 5
    ensures BlockEnd(EmptyThenBullet, 5) == 9
  {
    var s := EmptyThenBullet;
    assert TerminatorAt(s, 4);
    assert SkipSpaces(s, 5) == 5;
  }

  lemma EmptyThenBulletLines()
    ensures SplitLines("##\n-") == ["##", "-"]
  {
    var block := "##\n-";
    assert LineEnd(block, 0) == 2;
    assert block[..2] == "##";
    assert block[3..] == "-";
    assert SplitLines("-") == ["-"];
  }

  lemma EmptyThenBulletItems()
    ensures ItemsOf(EmptyThenBullet[5..9]) == ["-"]
  {
    assert EmptyThenBullet[5..9] == "##\n-";
    assert Strip("##\n-") == "##\n-";
    EmptyThenBulletLines();
  }

  /**
   * The code as written: in `"##T:\n##\n-"` the `T` section is empty, yet
   * the greedy `\s*` after the colon crosses the newline, the lazy group
   * runs on into the next section, and its bullet is returned.
   */
  lemma EmptySectionTakesNextSection()
    ensures FindHeader(EmptyThenBullet, "T", 0) == Some(0)
    ensures ColonAt(EmptyThenBullet, "T", 0) == Some(3)
    ensures AllSpaces(EmptyThenBullet, 4, BlockEnd(EmptyThenBullet, 4))
    ensures BulletItems(EmptyThenBullet, "T") == ["-"]
    ensures BulletItemsCorrected(EmptyThenBullet, "T") == []
  {
    EmptyThenBulletHeader();
    EmptyThenBulletBlocks();
    EmptyThenBulletItems();
    EmptySectionHasNoItems(EmptyThenBullet, "T", 0, 3);
    AsWrittenBlock(EmptyThenBullet, "T", 0, 3);
    AsWrittenItems(EmptyThenBullet, "T", EmptyThenBullet[5..9]);
  }

  /** A document whose section name itself begins with a space. */
  const SpacedName := "## Tags:\n- a"

  lemma SpacedNameHeader()
    ensures FindHeader(SpacedName, " Tags", 0) == Some(0)
    ensures ColonAt(SpacedName, " Tags", 0) == Some(7)
  {
    var s := SpacedName;
    assert OccursAt(s, "##", 0) by { assert s[0..2] == "##"; }
    assert SkipSpaces(s, 3) == 3;
    assert SkipSpaces(s, 2) == 3;
    assert ColonAfterName(s, " Tags", 3).None? by {
      assert Lower(s[3..8][0]) != Lower(" Tags"[0]);
    }
    assert LatestStart(s, " Tags", 2, 3) == 2;
    assert SameIgnoringCase(s[2..7], " Tags") by { assert s[2..7] == " Tags"; }
    assert SkipSpaces(s, 7) == 7;
    assert ColonAfterName(s, " Tags", 2) == Some(7);
  }

  lemma SpacedNameBlocks()
    ensures SkipSpaces(SpacedName, 8) == 9
    ensures BlockEnd(SpacedName, 9) == 12
    ensures BlockEnd(SpacedName, 8) == 12
    ensures SpacedName[9..12] == "- a"
  {
    var s := SpacedName;
    assert SkipSpaces(s, 9) == 9;
    assert !TerminatorAt(s, 8);
    assert BlockEnd(s, 9) == 12 by {
      assert !TerminatorAt(s, 9) && !TerminatorAt(s, 10) && !TerminatorAt(s, 11);
    }
  }

  lemma SpacedNameItems()
    ensures ItemsOf("- a") == ["- a"]
  {
    StripKeeps("- a");
    SplitLinesOne("- a");
    assert Strip("- a") == "- a";
    assert Bullets(["- a"]) == ["- a"] + Bullets([]);
  }

  /**
   * The `\s*` after `##` gives back the space it took when the name itself
   * begins with one: the section ` Tags` of `"## Tags:\n- a"` is found, and
   * its bullet is returned.
   */
  lemma SpacedNameMatches()
    ensures BulletItems(SpacedName, " Tags") == ["- a"]
  {
    SpacedNameHeader();
    SpacedNameBlocks();
    AsWrittenBlock(SpacedName, " Tags", 0, 7);
    SpacedNameItems();
    AsWrittenItems(SpacedName, " Tags", "- a");
  }
}
