/**
 * The Python string operations the two scripts rely on, as functions on
 * Dafny strings: whitespace tests and `str.strip`, prefix and suffix tests,
 * `str.split`, `str.join`, `str.replace` and `os.path.basename`.
 */
module Text {
  import opened Wrappers

  /** Python's `str.isspace` for one character: exactly the characters that
      `str.strip()` removes and that the regular-expression class `\s`
      matches in a `str` pattern. */
  predicate IsSpace(c: char) {
    || ('\t' <= c <= '\r')
    || ('\U{1c}' <= c <= ' ')
    || c == '\U{85}' || c == '\U{a0}' || c == '\U{1680}'
    || ('\U{2000}' <= c <= '\U{200a}')
    || c == '\U{2028}' || c == '\U{2029}' || c == '\U{202f}' || c == '\U{205f}'
    || c == '\U{3000}'
  }

  predicate AllSpace(s: string) {
    forall i :: 0 <= i < |s| ==> IsSpace(s[i])
  }

  /** The regular-expression class `[0-9a-fA-F]`. */
  predicate IsHexDigit(c: char) {
    '0' <= c <= '9' || 'a' <= c <= 'f' || 'A' <= c <= 'F'
  }

  function AsciiLower(c: char): char {
    if 'A' <= c <= 'Z' then (c as int + 32) as char else c
  }

  /** The character `re.IGNORECASE` compares: ASCII letters in lower case,
      and the four non-ASCII characters Python's `re` matches against an ASCII
      letter (long s, dotless i, dotted capital I and the Kelvin sign). */
  function IgnoreCaseFold(c: char): char {
    if c == '\U{17f}' then 's'
    else if c == '\U{131}' || c == '\U{130}' then 'i'
    else if c == '\U{212a}' then 'k'
    else AsciiLower(c)
  }

  /** Equality as an ASCII literal matches under `re.IGNORECASE`. */
  predicate EqualsIgnoreCase(a: string, b: string) {
    |a| == |b| && forall i :: 0 <= i < |a| ==> IgnoreCaseFold(a[i]) == IgnoreCaseFold(b[i])
  }

  predicate StartsWith(s: string, prefix: string) {
    |prefix| <= |s| && s[..|prefix|] == prefix
  }

  predicate EndsWith(s: string, suffix: string) {
    |suffix| <= |s| && s[|s| - |suffix|..] == suffix
  }

  /** `pat` occurs in `s` starting at index `i`. */
  predicate OccursAt(s: string, pat: string, i: int) {
    0 <= i && i + |pat| <= |s| && s[i..i + |pat|] == pat
  }

  ghost predicate Contains(s: string, pat: string) {
    exists i :: OccursAt(s, pat, i)
  }

  /** An occurrence past a prefix is an occurrence in what follows it. */
  lemma OccursInTail(head: string, tail: string, pat: string, i: int)
    requires OccursAt(head + tail, pat, i) && i >= |head|
    ensures OccursAt(tail, pat, i - |head|)
  {
    assert (head + tail)[i..i + |pat|] == tail[i - |head|..i - |head| + |pat|];
  }

  /** An occurrence in the text after a prefix is an occurrence in the whole. */
  lemma OccursInWhole(head: string, tail: string, pat: string, i: int)
    requires OccursAt(tail, pat, i)
    ensures OccursAt(head + tail, pat, i + |head|)
  {
    assert (head + tail)[i + |head|..i + |head| + |pat|] == tail[i..i + |pat|];
  }

  /** A pattern whose first character is not in the prefix occurs only after it. */
  lemma ContainedInTail(head: string, tail: string, pat: string)
    requires |pat| > 0 && pat[0] !in head
    ensures Contains(head + tail, pat) ==> Contains(tail, pat)
  {
    if Contains(head + tail, pat) {
      var i :| OccursAt(head + tail, pat, i);
      assert (head + tail)[i] == pat[0];
      OccursInTail(head, tail, pat, i);
    }
  }

  /** What the tail contains, the whole contains. */
  lemma ContainedInWhole(head: string, tail: string, pat: string)
    ensures Contains(tail, pat) ==> Contains(head + tail, pat)
  {
    if Contains(tail, pat) {
      var i :| OccursAt(tail, pat, i);
      OccursInWhole(head, tail, pat, i);
    }
  }

  /** The length of the longest prefix of `s` whose characters all satisfy `p`. */
  function PrefixRun(s: string, p: char -> bool): (n: nat)
    ensures n <= |s|
    ensures forall k :: 0 <= k < n ==> p(s[k])
    ensures n < |s| ==> !p(s[n])
  {
    if |s| > 0 && p(s[0]) then 1 + PrefixRun(s[1..], p) else 0
  }

  /** The length of the longest suffix of `s` whose characters all satisfy `p`. */
  function SuffixRun(s: string, p: char -> bool): (n: nat)
    ensures n <= |s|
    ensures forall k :: |s| - n <= k < |s| ==> p(s[k])
    ensures n < |s| ==> !p(s[|s| - n - 1])
  {
    if |s| > 0 && p(s[|s| - 1]) then 1 + SuffixRun(s[..|s| - 1], p) else 0
  }

  /** A run is determined by where it stops. */
  lemma PrefixRunIs(s: string, p: char -> bool, m: nat)
    requires m <= |s|
    requires forall k :: 0 <= k < m ==> p(s[k])
    requires m < |s| ==> !p(s[m])
    ensures PrefixRun(s, p) == m
  {
  }

  lemma SuffixRunIs(s: string, p: char -> bool, m: nat)
    requires m <= |s|
    requires forall k :: |s| - m <= k < |s| ==> p(s[k])
    requires m < |s| ==> !p(s[|s| - m - 1])
    ensures SuffixRun(s, p) == m
  {
  }

  /** `r` sits at index `i` of `s` with only whitespace around it. */
  ghost predicate StripsTo(s: string, i: int, r: string) {
    OccursAt(s, r, i) && AllSpace(s[..i]) && AllSpace(s[i + |r|..])
  }

  /** Python's `str.strip()` with no argument. */
  function Strip(s: string): (r: string)
    ensures r == [] || (!IsSpace(r[0]) && !IsSpace(r[|r| - 1]))
    ensures exists i :: StripsTo(s, i, r)
  {
    var i := PrefixRun(s, IsSpace);
    var j := |s| - SuffixRun(s[i..], IsSpace);
    assert StripsTo(s, i, s[i..j]);
    s[i..j]
  }

  /** Strip removes exactly the surrounding whitespace: with the contract of
      Strip this says that the result is the unique trimmed infix. */
  lemma {:induction false} StripPadded(before: string, core: string, after: string)
    requires AllSpace(before) && AllSpace(after)
    requires core == [] || (!IsSpace(core[0]) && !IsSpace(core[|core| - 1]))
    ensures Strip(before + core + after) == core
  {
    if core == [] {
      StripBlank(before, after);
    } else {
      StripAroundCore(before, core, after);
    }
  }

  lemma StripBlank(before: string, after: string)
    requires AllSpace(before) && AllSpace(after)
    ensures Strip(before + [] + after) == []
  {
    var s := before + [] + after;
    assert s == before + after;
    PrefixRunIs(s, IsSpace, |s|);
    assert s[|s|..] == [];
    SuffixRunIs(s[|s|..], IsSpace, 0);
  }

  lemma StripAroundCore(before: string, core: string, after: string)
    requires AllSpace(before) && AllSpace(after)
    requires |core| > 0 && !IsSpace(core[0]) && !IsSpace(core[|core| - 1])
    ensures Strip(before + core + after) == core
  {
    var s := before + core + after;
    PrefixRunIs(s, IsSpace, |before|);
    assert s[|before|..] == core + after;
    SuffixRunIs(core + after, IsSpace, |after|);
    assert s[|before|..|s| - |after|] == core;
  }

  /** Text without whitespace at either end is left as it is. */
  lemma StripUnpadded(s: string)
    requires s == [] || (!IsSpace(s[0]) && !IsSpace(s[|s| - 1]))
    ensures Strip(s) == s
  {
    StripPadded("", s, "");
    assert "" + s + "" == s;
  }

  /** A string that starts with a non-space character keeps, after
      stripping, every prefix of it that ends in a non-space character. */
  lemma StripKeepsPrefix(s: string, prefix: string)
    requires StartsWith(s, prefix) && |prefix| > 0
    requires !IsSpace(prefix[0]) && !IsSpace(prefix[|prefix| - 1])
    ensures StartsWith(Strip(s), prefix)
  {
    assert s[0] == prefix[0];
    PrefixRunIs(s, IsSpace, 0);
    assert s[|prefix| - 1] == prefix[|prefix| - 1];
    assert s[0..] == s;
  }

  /** Python's `s.split(c, 1)`: one part when `c` does not occur, otherwise
      the text before and after its first occurrence. */
  function SplitOnce(s: string, c: char): (r: seq<string>)
    ensures |r| == 1 || |r| == 2
    ensures |r| == 1 <==> c !in s
    ensures |r| == 1 ==> r[0] == s
    ensures |r| == 2 ==> s == r[0] + [c] + r[1] && c !in r[0]
  {
    var n := PrefixRun(s, x => x != c);
    if n == |s| then [s] else [s[..n], s[n + 1..]]
  }

  /** The split happens at the first occurrence, whatever follows it. */
  lemma SplitOnceAt(s: string, c: char, i: nat)
    requires i < |s| && s[i] == c && c !in s[..i]
    ensures SplitOnce(s, c) == [s[..i], s[i + 1..]]
  {
    var r := SplitOnce(s, c);
    assert c in s;
    assert |r| == 2;
    assert forall k :: 0 <= k < i ==> s[k] != c by {
      forall k | 0 <= k < i ensures s[k] != c { assert s[k] == s[..i][k]; }
    }
    assert r[0] == s[..i];
  }

  /** Splitting at a separator the head does not hold gives back the two sides. */
  lemma SplitOnceOf(head: string, c: char, tail: string)
    requires c !in head
    ensures SplitOnce(head + [c] + tail, c) == [head, tail]
  {
    var s := head + [c] + tail;
    assert s[..|head|] == head && s[|head| + 1..] == tail;
    SplitOnceAt(s, c, |head|);
  }

  /** Python's `str.find`: the index of the first occurrence of a non-empty `pat`. */
  function Find(s: string, pat: string): (r: Option<nat>)
    requires |pat| > 0
    ensures r.Some? ==> OccursAt(s, pat, r.value)
    ensures r.Some? ==> forall j :: 0 <= j < r.value ==> !OccursAt(s, pat, j)
    ensures r.None? ==> forall j :: !OccursAt(s, pat, j)
    decreases |s|
  {
    if |s| < |pat| then None
    else if s[..|pat|] == pat then Some(0)
    else
      var tail := s[1..];
      assert forall j :: 1 <= j ==> (OccursAt(s, pat, j) <==> OccursAt(tail, pat, j - 1)) by {
        forall j | 1 <= j
          ensures OccursAt(s, pat, j) <==> OccursAt(tail, pat, j - 1)
        {
          if j + |pat| <= |s| {
            assert tail[j - 1..j - 1 + |pat|] == s[j..j + |pat|];
          }
        }
      }
      match Find(tail, pat)
      case None => None
      case Some(i) => Some(i + 1)
  }

  /** Python's `sep.join(parts)`. */
  function Join(parts: seq<string>, sep: string): string {
    if |parts| == 0 then ""
    else if |parts| == 1 then parts[0]
    else parts[0] + sep + Join(parts[1..], sep)
  }

  /** Joining one more part appends the separator and the part. */
  lemma {:induction false} JoinSnoc(parts: seq<string>, x: string, sep: string)
    requires |parts| >= 1
    ensures Join(parts + [x], sep) == Join(parts, sep) + sep + x
  {
    if |parts| == 1 {
      assert parts + [x] == [parts[0], x];
      assert Join([x], sep) == x;
    } else {
      assert (parts + [x])[1..] == parts[1..] + [x];
      JoinSnoc(parts[1..], x, sep);
    }
  }

  /** Python's `s.split(sep)` for a non-empty separator: the text between
      successive non-overlapping occurrences, scanned from the left. */
  function Split(s: string, sep: string): (parts: seq<string>)
    requires |sep| > 0
    ensures |parts| >= 1
    ensures Join(parts, sep) == s
    ensures forall k :: 0 <= k < |parts| ==> !Contains(parts[k], sep)
    ensures forall k :: 0 <= k < |parts| - 1 ==> !Contains(parts[k] + sep[..|sep| - 1], sep)
    decreases |s|
  {
    match Find(s, sep)
    case None => [s]
    case Some(i) =>
      var head := s[..i];
      var rest := Split(s[i + |sep|..], sep);
      CutIsFirst(s, sep, i);
      assert s == head + sep + s[i + |sep|..];
      [head] + rest
  }

  /** Whether `pat` occurs at `j` is decided by the first `n` characters
      when the occurrence would end within them. */
  lemma OccursInPrefix(s: string, n: int, pat: string, j: int)
    requires 0 <= j && j + |pat| <= n <= |s|
    ensures OccursAt(s[..n], pat, j) == OccursAt(s, pat, j)
  {
    assert s[..n][j..j + |pat|] == s[j..j + |pat|];
  }

  /** Cutting at the first occurrence leaves no occurrence before it, not
      even one that reaches into the separator. */
  lemma CutIsFirst(s: string, sep: string, i: nat)
    requires |sep| > 0 && OccursAt(s, sep, i)
    requires forall j :: 0 <= j < i ==> !OccursAt(s, sep, j)
    ensures !Contains(s[..i], sep) && !Contains(s[..i] + sep[..|sep| - 1], sep)
  {
    var t := s[..i] + sep[..|sep| - 1];
    assert t == s[..i + |sep| - 1];
    forall j | 0 <= j && j + |sep| <= |t| ensures OccursAt(t, sep, j) == OccursAt(s, sep, j) {
      OccursInPrefix(s, |t|, sep, j);
    }
    forall j | 0 <= j && j + |sep| <= i ensures OccursAt(s[..i], sep, j) == OccursAt(s, sep, j) {
      OccursInPrefix(s, i, sep, j);
    }
  }

  /** `head` is the text before the first occurrence of `sep` in `s`, or the
      whole of `s` when there is none. */
  ghost predicate FirstField(s: string, sep: string, head: string)
    requires |sep| > 0
  {
    || (head == s && !Contains(s, sep))
    || (StartsWith(s, head + sep) && !Contains(head + sep[..|sep| - 1], sep))
  }

  /** A text that starts with `head + sep` has `sep` right after `head`. */
  lemma StartsWithOccurs(s: string, head: string, sep: string)
    requires StartsWith(s, head + sep)
    ensures OccursAt(s, sep, |head|) && s[..|head|] == head
  {
    assert s[..|head| + |sep|] == head + sep;
    assert s[|head|..|head| + |sep|] == (head + sep)[|head|..];
    assert s[..|head|] == (head + sep)[..|head|];
  }

  /** The first field is what `Find` points at. */
  lemma FirstFieldIsFind(s: string, sep: string, head: string)
    requires |sep| > 0 && FirstField(s, sep, head)
    ensures head == match Find(s, sep) case None => s case Some(i) => s[..i]
  {
    if StartsWith(s, head + sep) {
      StartsWithOccurs(s, head, sep);
      var t := head + sep[..|sep| - 1];
      assert t == s[..|t|];
      forall j | 0 <= j < |head| ensures !OccursAt(s, sep, j) {
        OccursInPrefix(s, |t|, sep, j);
      }
    }
  }

  /** The first part of a split is the first field, and the other parts are
      the split of what follows the first separator. */
  lemma SplitFirstField(s: string, sep: string)
    requires |sep| > 0
    ensures var parts := Split(s, sep);
      && FirstField(s, sep, parts[0])
      && (|parts| >= 2 ==> |parts[0]| + |sep| <= |s| && parts[1..] == Split(s[|parts[0]| + |sep|..], sep))
  {
    var parts := Split(s, sep);
    match Find(s, sep)
    case None =>
      assert parts == [s];
    case Some(i) =>
      assert parts == [s[..i]] + Split(s[i + |sep|..], sep);
      assert s[..i + |sep|] == s[..i] + sep;
  }

  /** `s.split(sep)[0]` is exactly the first field: both directions. */
  lemma SplitHeadIff(s: string, sep: string, head: string)
    requires |sep| > 0
    ensures FirstField(s, sep, head) <==> head == Split(s, sep)[0]
  {
    SplitFirstField(s, sep);
    if FirstField(s, sep, head) {
      FirstFieldIsFind(s, sep, head);
      FirstFieldIsFind(s, sep, Split(s, sep)[0]);
    }
  }

  /** A character of the text is an occurrence of the one-character string. */
  lemma CharIsContained(s: string, c: char)
    ensures c in s ==> Contains(s, [c])
  {
    if c in s {
      var i :| 0 <= i < |s| && s[i] == c;
      assert s[i..i + 1] == [c];
      assert OccursAt(s, [c], i);
    }
  }

  /** The split leaves the text whole exactly when the separator does not occur. */
  lemma SplitIsWhole(s: string, sep: string)
    requires |sep| > 0
    ensures |Split(s, sep)| == 1 <==> !Contains(s, sep)
  {
    if Find(s, sep).Some? {
      assert OccursAt(s, sep, Find(s, sep).value);
    }
  }

  /** Splitting undoes joining when no part contains the separator's first
      character (so that no occurrence can start inside a part). */
  lemma {:induction false} SplitOfJoin(parts: seq<string>, sep: string)
    requires |sep| > 0 && |parts| >= 1
    requires forall k :: 0 <= k < |parts| ==> sep[0] !in parts[k]
    ensures Split(Join(parts, sep), sep) == parts
  {
    var s := Join(parts, sep);
    var p := parts[0];
    if |parts| == 1 {
      forall j | 0 <= j < |s| ensures s[j] != sep[0] {
        assert s[j] == p[j];
      }
    } else {
      var rest := Join(parts[1..], sep);
      assert s == p + sep + rest;
      assert OccursAt(s, sep, |p|) by {
        assert s[|p|..|p| + |sep|] == sep;
      }
      forall j | 0 <= j < |p| ensures s[j] != sep[0] {
        assert s[j] == p[j];
      }
      assert Find(s, sep) == Some(|p|);
      assert s[|p| + |sep|..] == rest;
      SplitOfJoin(parts[1..], sep);
      assert parts == [p] + parts[1..];
    }
  }

  /** Python's `s.replace(pat, rep)` for a non-empty `pat`: occurrences are
      replaced left to right without overlapping. */
  function ReplaceAll(s: string, pat: string, rep: string): string
    requires |pat| > 0
    decreases |s|
  {
    if |s| < |pat| then s
    else if s[..|pat|] == pat then rep + ReplaceAll(s[|pat|..], pat, rep)
    else [s[0]] + ReplaceAll(s[1..], pat, rep)
  }

  /** A first character that cannot start an occurrence is copied. */
  lemma ReplaceAllHead(s: string, pat: string, rep: string)
    requires |pat| > 0 && |s| > 0 && s[0] != pat[0]
    ensures ReplaceAll(s, pat, rep) == [s[0]] + ReplaceAll(s[1..], pat, rep)
  {
    if |s| < |pat| {
      assert s == [s[0]] + s[1..];
    } else {
      assert s[..|pat|][0] == s[0];
    }
  }

  /** Text that cannot start an occurrence is copied unchanged. */
  lemma {:induction false} ReplaceAllSkips(p: string, rest: string, pat: string, rep: string)
    requires |pat| > 0 && pat[0] !in p
    ensures ReplaceAll(p + rest, pat, rep) == p + ReplaceAll(rest, pat, rep)
  {
    if |p| > 0 {
      var s := p + rest;
      assert s[0] == p[0];
      ReplaceAllHead(s, pat, rep);
      assert s[1..] == p[1..] + rest;
      ReplaceAllSkips(p[1..], rest, pat, rep);
      assert p == [p[0]] + p[1..];
    } else {
      assert p + rest == rest;
    }
  }

  /** `s.replace(pat, rep)` is `rep.join(s.split(pat))`, for every text. */
  lemma {:induction false} ReplaceAllIsJoinOfSplit(s: string, pat: string, rep: string)
    requires |pat| > 0
    ensures ReplaceAll(s, pat, rep) == Join(Split(s, pat), rep)
    decreases |s|
  {
    match Find(s, pat)
    case None =>
      ReplaceAllUpTo(s, pat, rep, |s|);
      assert s[..|s|] == s && s[|s|..] == [];
      assert Split(s, pat) == [s];
    case Some(i) =>
      var tail := s[i + |pat|..];
      ReplaceAllAtFirst(s, pat, rep, i);
      SplitAtFirst(s, pat, i);
      JoinCons(s[..i], Split(tail, pat), rep);
      ReplaceAllIsJoinOfSplit(tail, pat, rep);
  }

  /** The split at the first occurrence. */
  lemma SplitAtFirst(s: string, sep: string, i: nat)
    requires |sep| > 0 && Find(s, sep) == Some(i)
    ensures Split(s, sep) == [s[..i]] + Split(s[i + |sep|..], sep)
  {
  }

  /** Joining a part in front of at least one more. */
  lemma JoinCons(head: string, rest: seq<string>, sep: string)
    requires |rest| >= 1
    ensures Join([head] + rest, sep) == head + sep + Join(rest, sep)
  {
    assert ([head] + rest)[1..] == rest;
  }

  /** The text before the first occurrence is copied, that occurrence
      becomes `rep`, and replacing goes on after it. */
  lemma ReplaceAllAtFirst(s: string, pat: string, rep: string, i: nat)
    requires |pat| > 0 && OccursAt(s, pat, i)
    requires forall j :: 0 <= j < i ==> !OccursAt(s, pat, j)
    ensures ReplaceAll(s, pat, rep) == s[..i] + rep + ReplaceAll(s[i + |pat|..], pat, rep)
  {
    ReplaceAllUpTo(s, pat, rep, i);
    OccursAtDrop(s, pat, i);
    ReplaceAllAtPattern(s[i..], pat, rep);
    assert s[i..][|pat|..] == s[i + |pat|..];
  }

  /** An occurrence at `i` starts the text from `i` on. */
  lemma OccursAtDrop(s: string, pat: string, i: nat)
    requires OccursAt(s, pat, i)
    ensures OccursAt(s[i..], pat, 0)
  {
    assert s[i..][..|pat|] == s[i..i + |pat|];
  }

  /** Text before the first occurrence is copied. */
  lemma {:induction false} ReplaceAllUpTo(s: string, pat: string, rep: string, i: nat)
    requires |pat| > 0 && i <= |s|
    requires forall j :: 0 <= j < i ==> !OccursAt(s, pat, j)
    ensures ReplaceAll(s, pat, rep) == s[..i] + ReplaceAll(s[i..], pat, rep)
    decreases i
  {
    if i == 0 {
      assert s[..0] + s[0..] == s[0..];
    } else {
      ReplaceAllNoMatchHead(s, pat, rep);
      forall j | 0 <= j < i - 1 ensures !OccursAt(s[1..], pat, j) {
        OccursShift(s, pat, j);
      }
      ReplaceAllUpTo(s[1..], pat, rep, i - 1);
      DropOne(s, i);
    }
  }

  /** A first character where no occurrence starts is copied. */
  lemma ReplaceAllNoMatchHead(s: string, pat: string, rep: string)
    requires |pat| > 0 && |s| > 0 && !OccursAt(s, pat, 0)
    ensures ReplaceAll(s, pat, rep) == [s[0]] + ReplaceAll(s[1..], pat, rep)
  {
    if |s| < |pat| {
      assert s == [s[0]] + s[1..];
    }
  }

  /** Occurrences in the text after the first character. */
  lemma OccursShift(s: string, pat: string, j: nat)
    requires |s| > 0
    ensures OccursAt(s[1..], pat, j) == OccursAt(s, pat, j + 1)
  {
    if j + |pat| <= |s| - 1 {
      assert s[1..][j..j + |pat|] == s[j + 1..j + 1 + |pat|];
    }
  }

  /** Slicing after dropping the first character. */
  lemma DropOne(s: string, i: nat)
    requires 0 < i <= |s|
    ensures s[..i] == [s[0]] + s[1..][..i - 1] && s[1..][i - 1..] == s[i..]
  {
  }

  /** An occurrence at the start is replaced and the rest is processed. */
  lemma ReplaceAllAtPattern(u: string, pat: string, rep: string)
    requires |pat| > 0 && OccursAt(u, pat, 0)
    ensures ReplaceAll(u, pat, rep) == rep + ReplaceAll(u[|pat|..], pat, rep)
  {
  }

  /** `os.path.basename` on a POSIX path: the text after the last '/'. */
  function Basename(path: string): (r: string)
    ensures '/' !in r
    ensures EndsWith(path, r)
    ensures |r| < |path| ==> path[|path| - |r| - 1] == '/'
  {
    if |path| == 0 || path[|path| - 1] == '/' then ""
    else
      var r := Basename(path[..|path| - 1]);
      assert path[..|path| - 1][|path| - 1 - |r|..] == r;
      r + [path[|path| - 1]]
  }

  /** Python's universal-newline translation when a text file is read:
      "\r\n" and a lone "\r" both become "\n". */
  function UniversalNewlines(content: string): string {
    ReplaceAll(ReplaceAll(content, "\r\n", "\n"), "\r", "\n")
  }

  /** The lines `for ln in f` yields from translated text: each ends with
      its '\n' and keeps it, and a last piece without one is a line too. */
  function LinesKeepEnds(t: string): (lines: seq<string>)
    ensures Join(lines, "") == t
    ensures forall k :: 0 <= k < |lines| ==> |lines[k]| > 0 && '\n' !in lines[k][..|lines[k]| - 1]
    ensures forall k :: 0 <= k < |lines| - 1 ==> lines[k][|lines[k]| - 1] == '\n'
    decreases |t|
  {
    if |t| == 0 then []
    else match Find(t, "\n")
      case None =>
        NoLineBreakBefore(t, |t|);
        assert t[..|t|] == t;
        [t]
      case Some(i) =>
        var line := t[..i + 1];
        var rest := LinesKeepEnds(t[i + 1..]);
        NoLineBreakBefore(t, i);
        assert line[..|line| - 1] == t[..i];
        assert t[i..i + 1] == "\n";
        if |rest| == 0 then
          assert t == line;
          [line]
        else
          JoinCons(line, rest, "");
          assert t == line + "" + t[i + 1..];
          [line] + rest
  }

  /** The lines of a text file with the given content, as Python iterates them. */
  function FileLines(content: string): seq<string> {
    LinesKeepEnds(UniversalNewlines(content))
  }

  /** Replacing a pattern the text does not hold leaves the text unchanged. */
  lemma ReplaceAllAbsent(s: string, pat: string, rep: string)
    requires |pat| > 0 && forall j :: !OccursAt(s, pat, j)
    ensures ReplaceAll(s, pat, rep) == s
  {
    ReplaceAllUpTo(s, pat, rep, |s|);
    assert s[..|s|] == s && s[|s|..] == [];
  }

  /** Text without a carriage return is not changed by the translation. */
  lemma UniversalNewlinesKeeps(content: string)
    requires '\r' !in content
    ensures UniversalNewlines(content) == content
  {
    forall j ensures !OccursAt(content, "\r\n", j) {
      if 0 <= j && j + 2 <= |content| {
        assert content[j..j + 2][0] == content[j];
      }
    }
    ReplaceAllAbsent(content, "\r\n", "\n");
    forall j ensures !OccursAt(content, "\r", j) {
      if 0 <= j && j + 1 <= |content| {
        assert content[j..j + 1][0] == content[j];
      }
    }
    ReplaceAllAbsent(content, "\r", "\n");
  }

  lemma NoLineBreakBefore(t: string, i: int)
    requires 0 <= i <= |t| && forall j :: 0 <= j < i ==> !OccursAt(t, "\n", j)
    ensures '\n' !in t[..i]
  {
    forall k | 0 <= k < i ensures t[..i][k] != '\n' {
      assert !OccursAt(t, "\n", k);
      assert t[k..k + 1][0] == t[k];
    }
  }

  /** Two lines, each ended by '\n', are read back as those two lines. */
  lemma FileLinesOfTwo(a: string, b: string)
    requires '\n' !in a && '\r' !in a && '\n' !in b && '\r' !in b
    ensures FileLines(a + "\n" + b + "\n") == [a + "\n", b + "\n"]
  {
    var u := b + "\n";
    var t := a + "\n" + u;
    assert t == a + "\n" + b + "\n";
    CharNotInLines(a, u, '\r');
    UniversalNewlinesKeeps(t);
    LinesKeepEndsCons(a, u);
    LinesKeepEndsCons(b, "");
    assert b + "\n" + "" == u;
  }

  /** One line ended by '\n' is read back as that line. */
  lemma FileLinesOfOne(a: string)
    requires '\n' !in a && '\r' !in a
    ensures FileLines(a + "\n") == [a + "\n"]
  {
    CharNotInLines(a, "", '\r');
    assert a + "\n" + "" == a + "\n";
    UniversalNewlinesKeeps(a + "\n");
    LinesKeepEndsCons(a, "");
  }

  lemma CharNotInLines(a: string, u: string, c: char)
    requires c !in a && c !in u && c != '\n'
    ensures c !in a + "\n" + u
  {
  }

  /** A newline-free text and its '\n' make the first line. */
  lemma LinesKeepEndsCons(a: string, rest: string)
    requires '\n' !in a
    ensures LinesKeepEnds(a + "\n" + rest)
      == [a + "\n"] + (if |rest| == 0 then [] else LinesKeepEnds(rest))
  {
    var t := a + "\n" + rest;
    LineEndsAt(a, rest);
    assert t[..|a| + 1] == a + "\n" && t[|a| + 1..] == rest;
  }

  /** A '\n' after newline-free text is the first one. */
  lemma LineEndsAt(a: string, rest: string)
    requires '\n' !in a
    ensures Find(a + "\n" + rest, "\n") == Some(|a|)
  {
    var t := a + "\n" + rest;
    assert OccursAt(t, "\n", |a|) by { assert t[|a|..|a| + 1] == "\n"; }
    forall j | 0 <= j < |a| ensures !OccursAt(t, "\n", j) {
      assert t[j..j + 1][0] == a[j];
    }
  }
}
