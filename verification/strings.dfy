/** The Python `str` and `os.path` operations the core relies on, over
    `seq<char>`: `strip`, `split` on one character, `join`, `in`, `count`,
    `endswith`, `rfind` and `os.path.splitext` (POSIX flavour). */
module Strings {
  import opened Results

  /** Python's `str.isspace`, restricted to ASCII: space, tab, line feed,
      vertical tab, form feed, carriage return and the separators 0x1C-0x1F. */
  predicate IsSpace(c: char) {
    || c == ' ' || c == '\t' || c == '\n' || c == '\r'
    || c == '\U{0B}' || c == '\U{0C}'
    || c == '\U{1C}' || c == '\U{1D}' || c == '\U{1E}' || c == '\U{1F}'
  }

  /** ASCII digit, what the regex class `\d` matches on ASCII text. */
  predicate IsDigit(c: char) {
    '0' <= c <= '9'
  }

  predicate AllSpace(s: string) {
    forall i :: 0 <= i < |s| ==> IsSpace(s[i])
  }

  /** No leading or trailing whitespace. */
  predicate IsStripped(s: string) {
    s == [] || (!IsSpace(s[0]) && !IsSpace(s[|s| - 1]))
  }

  /** No character of `s` occurs in `w`. */
  predicate Disjoint(s: string, w: string) {
    forall i :: 0 <= i < |s| ==> s[i] !in w
  }

  // ---------------------------------------------------------------------
  // strip

  /** Python's `str.strip()` with no argument: leading and trailing
      whitespace removed. */
  function Strip(s: string): (r: string)
    ensures IsStripped(r)
    ensures IsStripped(s) ==> r == s
    decreases |s|
  {
    if |s| > 0 && IsSpace(s[0]) then Strip(s[1..])
    else if |s| > 0 && IsSpace(s[|s| - 1]) then Strip(s[..|s| - 1])
    else s
  }

  /** What `Strip` removed is whitespace on both sides, and what it kept is
      one contiguous slice of the input. */
  lemma {:induction false} StripSlice(s: string) returns (a: nat, b: nat)
    ensures a <= b <= |s|
    ensures Strip(s) == s[a..b]
    ensures AllSpace(s[..a]) && AllSpace(s[b..])
    decreases |s|
  {
    if |s| > 0 && IsSpace(s[0]) {
      var a', b' := StripSlice(s[1..]);
      a, b := a' + 1, b' + 1;
      SliceAfterFront(s, a', b');
    } else if |s| > 0 && IsSpace(s[|s| - 1]) {
      var a', b' := StripSlice(s[..|s| - 1]);
      a, b := a', b';
      SliceBeforeBack(s, a', b');
    } else {
      a, b := 0, |s|;
      assert s[0..|s|] == s;
    }
  }

  lemma SliceAfterFront(s: string, a: nat, b: nat)
    requires |s| > 0 && IsSpace(s[0]) && a <= b <= |s| - 1
    requires AllSpace(s[1..][..a]) && AllSpace(s[1..][b..])
    ensures s[1..][a..b] == s[a + 1..b + 1]
    ensures AllSpace(s[..a + 1]) && AllSpace(s[b + 1..])
  {
    assert s[..a + 1] == [s[0]] + s[1..][..a];
    assert s[b + 1..] == s[1..][b..];
  }

  lemma SliceBeforeBack(s: string, a: nat, b: nat)
    requires |s| > 0 && IsSpace(s[|s| - 1]) && a <= b <= |s| - 1
    requires AllSpace(s[..|s| - 1][..a]) && AllSpace(s[..|s| - 1][b..])
    ensures s[..|s| - 1][a..b] == s[a..b]
    ensures AllSpace(s[..a]) && AllSpace(s[b..])
  {
    assert s[..a] == s[..|s| - 1][..a];
    assert s[b..] == s[..|s| - 1][b..] + [s[|s| - 1]];
  }

  /** Stripping never introduces a character. */
  lemma StripKeeps(s: string, c: char)
    requires c !in s
    ensures c !in Strip(s)
  {
    var a, b := StripSlice(s);
    assert forall j :: 0 <= j < b - a ==> s[a..b][j] == s[a + j];
  }

  /** Leading whitespace does not change what `Strip` keeps. */
  lemma {:induction false} StripDropFront(s: string, n: nat)
    requires n <= |s| && AllSpace(s[..n])
    ensures Strip(s[n..]) == Strip(s)
    decreases n
  {
    if n > 0 {
      assert s[..n][0] == s[0];
      assert s[1..][..n - 1] == s[1..n];
      StripDropFront(s[1..], n - 1);
      assert s[1..][n - 1..] == s[n..];
    }
  }

  /** Stripping a text around a non-space mark keeps the mark, some tail
      of the text before it and some head of the text after it. */
  lemma StripAroundMark(before: string, mark: char, after: string) returns (a: nat, n: nat)
    requires !IsSpace(mark)
    ensures a <= |before| && n <= |after|
    ensures Strip(before + [mark] + after) == before[a..] + [mark] + after[..n]
    ensures AllSpace(before[..a]) && AllSpace(after[n..])
  {
    var raw := before + [mark] + after;
    var p := |before|;
    var lo, hi := StripSlice(raw);
    assert forall k :: 0 <= k < lo ==> IsSpace(raw[k]) by {
      forall k | 0 <= k < lo ensures IsSpace(raw[k]) { assert raw[..lo][k] == raw[k]; }
    }
    assert forall k :: hi <= k < |raw| ==> IsSpace(raw[k]) by {
      forall k | hi <= k < |raw| ensures IsSpace(raw[k]) { assert raw[hi..][k - hi] == raw[k]; }
    }
    assert raw[p] == mark;
    a, n := lo, hi - p - 1;
    assert raw[lo..hi] == before[a..] + [mark] + after[..n];
    assert before[..a] == raw[..lo];
    assert after[n..] == raw[hi..];
  }

  /** A text that starts with a non-space character keeps it first. */
  lemma {:induction false} StripKeepsFirst(s: string)
    requires |s| > 0 && !IsSpace(s[0])
    ensures |Strip(s)| > 0 && Strip(s)[0] == s[0]
    decreases |s|
  {
    if IsSpace(s[|s| - 1]) {
      StripKeepsFirst(s[..|s| - 1]);
    }
  }

  /** One trailing whitespace character does not change what `Strip` keeps,
      whichever side `Strip` happens to remove first. */
  lemma {:induction false} StripDropLast(s: string)
    requires |s| > 0 && IsSpace(s[|s| - 1])
    ensures Strip(s[..|s| - 1]) == Strip(s)
    decreases |s|
  {
    if |s| > 1 && IsSpace(s[0]) {
      StripDropLast(s[1..]);
      assert s[1..][..|s| - 2] == s[..|s| - 1][1..];
    }
  }

  /** Trailing whitespace does not change what `Strip` keeps. */
  lemma {:induction false} StripDropBack(s: string, n: nat)
    requires n <= |s| && AllSpace(s[n..])
    ensures Strip(s[..n]) == Strip(s)
    decreases |s| - n
  {
    if n < |s| {
      StripDropLast(s);
      var t := s[..|s| - 1];
      assert t[n..] == s[n..|s| - 1];
      StripDropBack(t, n);
      assert t[..n] == s[..n];
    } else {
      assert s[..n] == s;
    }
  }

  // ---------------------------------------------------------------------
  // split and join

  /** Index of the first occurrence of `c`, like `str.find` but with `None`
      in place of -1. */
  function IndexOf(s: string, c: char): (r: Option<nat>)
    ensures r.None? <==> c !in s
    ensures r.Some? ==> r.value < |s| && s[r.value] == c && c !in s[..r.value]
    decreases |s|
  {
    if |s| == 0 then None
    else if s[0] == c then Some(0)
    else match IndexOf(s[1..], c)
      case None => None
      case Some(i) => assert s[..i + 1] == [s[0]] + s[1..][..i]; Some(i + 1)
  }

  lemma IndexOfIs(s: string, c: char, i: nat)
    requires i < |s| && s[i] == c && c !in s[..i]
    ensures IndexOf(s, c) == Some(i)
  {
    assert c in s by { assert s[i] == c; }
  }

  /** The last element of a non-empty sequence. */
  function Last<T>(xs: seq<T>): T
    requires |xs| > 0
  {
    xs[|xs| - 1]
  }

  /** Python's `sep.join(parts)`: the pieces in order, one separator between
      each two of them. */
  function Join(parts: seq<string>, sep: string): (s: string)
    decreases |parts|
  {
    if |parts| == 0 then []
    else if |parts| == 1 then parts[0]
    else parts[0] + sep + Join(parts[1..], sep)
  }

  /** Python's `s.split(sep)` for a one-character separator: every piece
      between separators, including empty ones. */
  function Split(s: string, sep: char): (parts: seq<string>)
    ensures |parts| >= 1
    ensures forall i :: 0 <= i < |parts| ==> sep !in parts[i]
    ensures Join(parts, [sep]) == s
    decreases |s|
  {
    match IndexOf(s, sep)
    case None => [s]
    case Some(i) =>
      var rest := Split(s[i + 1..], sep);
      assert ([s[..i]] + rest)[1..] == rest;
      assert s == s[..i] + [sep] + s[i + 1..];
      [s[..i]] + rest
  }

  /** Splitting undoes joining when no piece holds the separator. */
  lemma {:induction false} SplitJoin(parts: seq<string>, sep: char)
    requires |parts| >= 1
    requires forall i :: 0 <= i < |parts| ==> sep !in parts[i]
    ensures Split(Join(parts, [sep]), sep) == parts
    decreases |parts|
  {
    if |parts| == 1 {
      assert sep !in parts[0];
    } else {
      var p := parts[0];
      var rest := Join(parts[1..], [sep]);
      assert sep !in p;
      SplitAppendNoSep(p, rest, sep);
      SplitJoin(parts[1..], sep);
      assert parts == [p] + parts[1..];
    }
  }

  /** A text without the separator is one piece. */
  lemma SplitSingle(s: string, sep: char)
    requires sep !in s
    ensures Split(s, sep) == [s]
  {
  }

  /** Splitting at a separator placed between two texts splits each text
      on its own. */
  lemma {:induction false} SplitAppend(a: string, b: string, sep: char)
    ensures Split(a + [sep] + b, sep) == Split(a, sep) + Split(b, sep)
    decreases |a|
  {
    var s := a + [sep] + b;
    match IndexOf(a, sep)
    case None =>
      SplitAppendNoSep(a, b, sep);
    case Some(i) =>
      assert s[..i] == a[..i];
      IndexOfIs(s, sep, i);
      assert s[i + 1..] == a[i + 1..] + [sep] + b;
      SplitAt(s, sep, i);
      SplitAt(a, sep, i);
      SplitAppend(a[i + 1..], b, sep);
      var p, q := Split(a[i + 1..], sep), Split(b, sep);
      assert Split(s, sep) == [a[..i]] + (p + q);
      assert Split(a, sep) == [a[..i]] + p;
      ConcatAssoc([a[..i]], p, q);
  }

  lemma ConcatAssoc<T>(x: seq<T>, y: seq<T>, z: seq<T>)
    ensures x + (y + z) == (x + y) + z
  {
  }

  /** One step of `Split`: the piece before the first separator, then the
      split of the rest. */
  lemma SplitAt(s: string, sep: char, i: nat)
    requires IndexOf(s, sep) == Some(i)
    ensures Split(s, sep) == [s[..i]] + Split(s[i + 1..], sep)
  {
  }

  lemma SplitAppendNoSep(a: string, b: string, sep: char)
    requires sep !in a
    ensures Split(a + [sep] + b, sep) == [a] + Split(b, sep)
  {
    var s := a + [sep] + b;
    assert s[..|a|] == a;
    IndexOfIs(s, sep, |a|);
    assert s[|a| + 1..] == b;
  }

  /** `s.split(sep)[-1]`: the whole text when it has no separator, and
      otherwise the text after its last separator. */
  function LastSplit(s: string, sep: char): (r: string)
    ensures sep !in r && EndsWith(s, r)
    ensures sep !in s ==> r == s
    ensures sep in s ==> |r| < |s| && s[|s| - |r| - 1] == sep
  {
    var parts := Split(s, sep);
    var last := parts[|parts| - 1];
    if sep in s then
      assert parts == parts[..|parts| - 1] + [last];
      JoinSnoc(parts[..|parts| - 1], last, [sep]);
      last
    else
      SplitSingle(s, sep);
      last
  }

  // ---------------------------------------------------------------------
  // substring search

  predicate IsPrefix(p: string, s: string) {
    |p| <= |s| && s[..|p|] == p
  }

  /** Python's `str.endswith`. */
  predicate EndsWith(s: string, suffix: string) {
    |suffix| <= |s| && s[|s| - |suffix|..] == suffix
  }

  /** Python's `w in s` for strings. */
  predicate Contains(s: string, w: string) {
    exists i :: 0 <= i <= |s| - |w| && OccursAt(s, w, i)
  }

  /** `w` occurs in `s` starting at index `i`. */
  predicate OccursAt(s: string, w: string, i: int) {
    0 <= i <= |s| - |w| && s[i..i + |w|] == w
  }

  lemma ContainsMiddle(a: string, w: string, b: string)
    ensures Contains(a + w + b, w)
  {
    var s := a + w + b;
    assert s[|a|..|a| + |w|] == w;
    assert OccursAt(s, w, |a|);
  }

  /** An occurrence inside a piece is an occurrence in any text around it. */
  lemma ContainsWithin(s: string, w: string, a: string, b: string)
    requires Contains(s, w)
    ensures Contains(a + s + b, w)
  {
    var i :| 0 <= i <= |s| - |w| && OccursAt(s, w, i);
    var t := a + s + b;
    assert t[|a| + i..|a| + i + |w|] == s[i..i + |w|];
    assert OccursAt(t, w, |a| + i);
  }

  /** An occurrence needs every character of `w`: if one of them is absent
      from `s`, so is `w`. */
  lemma MissingCharNotContained(s: string, w: string, k: nat)
    requires k < |w| && w[k] !in s
    ensures !Contains(s, w)
  {
    forall i | 0 <= i <= |s| - |w| ensures !OccursAt(s, w, i) {
      assert s[i..i + |w|][k] == s[i + k];
    }
  }

  /** Padding made only of characters foreign to `w` neither creates nor
      hides an occurrence of `w`. */
  lemma ContainsPadded(p: string, s: string, q: string, w: string)
    requires |w| > 0
    requires Disjoint(p, w) && Disjoint(q, w)
    ensures Contains(p + s + q, w) <==> Contains(s, w)
  {
    var t := p + s + q;
    if Contains(s, w) {
      var i :| 0 <= i <= |s| - |w| && OccursAt(s, w, i);
      assert t[|p| + i..|p| + i + |w|] == s[i..i + |w|];
      assert OccursAt(t, w, |p| + i);
    }
    forall i | OccursAt(t, w, i) ensures Contains(s, w) {
      assert t[i..i + |w|][0] == t[i];
      assert t[i..i + |w|][|w| - 1] == t[i + |w| - 1];
      assert i >= |p|;
      assert i + |w| <= |p| + |s|;
      assert s[i - |p|..i - |p| + |w|] == t[i..i + |w|];
      assert OccursAt(s, w, i - |p|);
    }
  }

  /** The last index at or below `hi` where `w` occurs in `s`, or -1. */
  function RFindText(s: string, w: string, hi: int): (r: int)
    requires hi >= -1
    ensures -1 <= r <= hi
    ensures r >= 0 ==> OccursAt(s, w, r)
    ensures forall j :: r < j <= hi ==> !OccursAt(s, w, j)
    decreases hi + 1
  {
    if hi < 0 then -1
    else if OccursAt(s, w, hi) then hi
    else RFindText(s, w, hi - 1)
  }

  /** The three properties of `RFindText` pin its value down. */
  lemma RFindTextIs(s: string, w: string, hi: int, r: int)
    requires -1 <= r <= hi
    requires r >= 0 ==> OccursAt(s, w, r)
    requires forall j :: r < j <= hi ==> !OccursAt(s, w, j)
    ensures RFindText(s, w, hi) == r
  {
  }

  /** The first index at or after `lo` where `w` occurs in `s`: what
      `str.find` returns, with `None` in place of -1. */
  function FindFrom(s: string, w: string, lo: nat): (r: Option<nat>)
    ensures r.None? ==> forall j :: lo <= j ==> !OccursAt(s, w, j)
    ensures r.Some? ==> lo <= r.value && OccursAt(s, w, r.value)
    ensures r.Some? ==> forall j :: lo <= j < r.value ==> !OccursAt(s, w, j)
    decreases |s| + 1 - lo
  {
    if lo + |w| > |s| then None
    else if OccursAt(s, w, lo) then Some(lo)
    else FindFrom(s, w, lo + 1)
  }

  /** The properties of `FindFrom` pin its value down. */
  lemma FindFromIs(s: string, w: string, lo: nat, k: nat)
    requires lo <= k && OccursAt(s, w, k)
    requires forall j :: lo <= j < k ==> !OccursAt(s, w, j)
    ensures FindFrom(s, w, lo) == Some(k)
  {
  }

  /** Python's `s.split(sep)` for a separator of any non-empty length: the
      text is cut at each occurrence found scanning left to right, the scan
      resuming after the occurrence it cut at. */
  function SplitOn(s: string, sep: string): (parts: seq<string>)
    requires |sep| > 0
    ensures |parts| >= 1
    ensures |parts| == 1 <==> !Contains(s, sep)
    ensures forall i :: 0 <= i < |parts| ==> !Contains(parts[i], sep)
    ensures forall i :: 0 <= i < |parts| - 1 ==> !Contains(parts[i] + sep[..|sep| - 1], sep)
    ensures Join(parts, sep) == s
    decreases |s|
  {
    match FindFrom(s, sep, 0)
    case None => [s]
    case Some(i) =>
      var rest := SplitOn(s[i + |sep|..], sep);
      SplitOnStep(s, sep, i, rest);
      [s[..i]] + rest
  }

  /** The text before the first occurrence, even extended by all but the
      last character of the separator, holds no occurrence. */
  lemma FirstCutClean(s: string, sep: string, i: nat)
    requires |sep| > 0 && FindFrom(s, sep, 0) == Some(i)
    ensures !Contains(s[..i], sep)
    ensures !Contains(s[..i] + sep[..|sep| - 1], sep)
  {
    NoEarlierMatch(s, sep, i, s[..i]);
    NoEarlierMatch(s, sep, i, s[..i] + sep[..|sep| - 1]) by {
      assert s[i..i + |sep|] == sep;
    }
  }

  /** A prefix of `s` too short to hold an occurrence at `i` or later holds
      none, when `s` has none before `i`. */
  lemma NoEarlierMatch(s: string, sep: string, i: nat, t: string)
    requires |sep| > 0 && i <= |s|
    requires forall j :: 0 <= j < i ==> !OccursAt(s, sep, j)
    requires |t| < i + |sep| && IsPrefix(t, s)
    ensures !Contains(t, sep)
  {
    forall j | 0 <= j <= |t| - |sep| ensures !OccursAt(t, sep, j) {
      assert !OccursAt(s, sep, j);
      assert t[j..j + |sep|] == s[j..j + |sep|];
    }
  }

  /** One cut of `SplitOn`: the text before the first occurrence holds none,
      not even one that would overlap the occurrence cut at, and the pieces
      join back around the occurrence. */
  lemma SplitOnStep(s: string, sep: string, i: nat, rest: seq<string>)
    requires |sep| > 0 && FindFrom(s, sep, 0) == Some(i)
    requires |rest| >= 1 && Join(rest, sep) == s[i + |sep|..]
    requires forall k :: 0 <= k < |rest| ==> !Contains(rest[k], sep)
    requires forall k :: 0 <= k < |rest| - 1 ==> !Contains(rest[k] + sep[..|sep| - 1], sep)
    ensures var parts := [s[..i]] + rest;
      && Contains(s, sep)
      && (forall k :: 0 <= k < |parts| ==> !Contains(parts[k], sep))
      && (forall k :: 0 <= k < |parts| - 1 ==> !Contains(parts[k] + sep[..|sep| - 1], sep))
      && Join(parts, sep) == s
  {
    var head := s[..i];
    var parts := [head] + rest;
    FirstCutClean(s, sep, i);
    assert parts[1..] == rest;
    assert s == head + sep + s[i + |sep|..];
    assert forall k :: 1 <= k < |parts| ==> parts[k] == rest[k - 1];
  }

  /** Splitting undoes joining when the separator's first character occurs
      in none of the pieces: no occurrence can then start inside a piece. */
  lemma {:induction false} SplitOnJoin(parts: seq<string>, sep: string)
    requires |sep| > 0 && |parts| >= 1
    requires forall i :: 0 <= i < |parts| ==> sep[0] !in parts[i]
    ensures SplitOn(Join(parts, sep), sep) == parts
    decreases |parts|
  {
    var p := parts[0];
    if |parts| == 1 {
      MissingCharNotContained(p, sep, 0);
    } else {
      var rest := Join(parts[1..], sep);
      var s := p + sep + rest;
      forall j | 0 <= j < |p| ensures !OccursAt(s, sep, j) {
        if j + |sep| <= |s| {
          assert s[j..j + |sep|][0] == p[j];
        }
      }
      assert s[|p|..|p| + |sep|] == sep;
      FindFromIs(s, sep, 0, |p|);
      assert s[|p| + |sep|..] == rest;
      SplitOnJoin(parts[1..], sep);
      assert parts == [p] + parts[1..];
    }
  }

  /** Joining one more piece puts the separator and the piece at the end. */
  lemma {:induction false} JoinSnoc(parts: seq<string>, last: string, sep: string)
    requires |parts| >= 1
    ensures Join(parts + [last], sep) == Join(parts, sep) + sep + last
    decreases |parts|
  {
    var all := parts + [last];
    assert all[1..] == parts[1..] + [last];
    if |parts| > 1 {
      JoinSnoc(parts[1..], last, sep);
    }
  }

  /** A character occurs in a join exactly when it occurs in a piece, or in
      the separator of a join of two or more pieces. */
  lemma {:induction false} JoinChars(parts: seq<string>, sep: string, c: char)
    ensures c in Join(parts, sep) <==>
      (exists i :: 0 <= i < |parts| && c in parts[i]) || (|parts| > 1 && c in sep)
    decreases |parts|
  {
    if |parts| > 1 {
      JoinChars(parts[1..], sep, c);
      assert forall i :: 1 <= i < |parts| ==> parts[1..][i - 1] == parts[i];
      if exists i :: 0 <= i < |parts| && c in parts[i] {
        var i :| 0 <= i < |parts| && c in parts[i];
        if i > 0 {
          assert c in parts[1..][i - 1];
        }
      }
    }
  }

  /** Python's `s.count(w)`: non-overlapping occurrences, scanning left to
      right. */
  function Count(s: string, w: string): (n: nat)
    requires |w| > 0
    ensures n * |w| <= |s|
    decreases |s|
  {
    if |s| < |w| then 0
    else if IsPrefix(w, s) then 1 + Count(s[|w|..], w)
    else Count(s[1..], w)
  }

  lemma {:induction false} CountPositiveIffContains(s: string, w: string)
    requires |w| > 0
    ensures Count(s, w) > 0 <==> Contains(s, w)
    decreases |s|
  {
    if |s| < |w| {
    } else if IsPrefix(w, s) {
      assert OccursAt(s, w, 0);
    } else {
      CountPositiveIffContains(s[1..], w);
      forall i | OccursAt(s[1..], w, i) ensures OccursAt(s, w, i + 1) {
        assert s[i + 1..i + 1 + |w|] == s[1..][i..i + |w|];
      }
      forall i | OccursAt(s, w, i) ensures OccursAt(s[1..], w, i - 1) {
        assert i != 0;
        assert s[1..][i - 1..i - 1 + |w|] == s[i..i + |w|];
      }
    }
  }

  /** Python's `s.replace(old, new)`: every non-overlapping occurrence of
      `target`, scanning left to right, replaced by `sub`; an empty `target`
      matches before every character and at the end. */
  function Replace(s: string, target: string, sub: string): (r: string)
    ensures |target| > 0 ==> |r| == |s| + Count(s, target) * (|sub| - |target|)
    decreases |s|, |target|
  {
    if |target| == 0 then
      if |s| == 0 then sub else sub + [s[0]] + Replace(s[1..], target, sub)
    else if |s| < |target| then s
    else if IsPrefix(target, s) then
      var rest := Replace(s[|target|..], target, sub);
      var c := Count(s[|target|..], target);
      MulSucc(c, |sub| - |target|);
      sub + rest
    else [s[0]] + Replace(s[1..], target, sub)
  }

  lemma MulSucc(c: int, d: int)
    ensures (1 + c) * d == d + c * d
  {
  }

  /** Text without `target` is left as it is. */
  lemma {:induction false} ReplaceAbsent(s: string, target: string, sub: string)
    requires |target| > 0 && !Contains(s, target)
    ensures Replace(s, target, sub) == s
    decreases |s|
  {
    if |s| >= |target| {
      assert !OccursAt(s, target, 0);
      assert !Contains(s[1..], target) by {
        forall i | 0 <= i <= |s| - 1 - |target| && OccursAt(s[1..], target, i) ensures false {
          assert s[1..][i..i + |target|] == s[i + 1..i + 1 + |target|];
          assert OccursAt(s, target, i + 1);
        }
      }
      ReplaceAbsent(s[1..], target, sub);
    }
  }

  /** Replacing a text by itself changes nothing. */
  lemma {:induction false} ReplaceBySelf(s: string, w: string)
    ensures Replace(s, w, w) == s
    decreases |s|
  {
    if |w| == 0 {
      if |s| > 0 {
        ReplaceBySelf(s[1..], w);
        assert s == [s[0]] + s[1..];
      }
    } else if |s| >= |w| {
      if IsPrefix(w, s) {
        ReplaceBySelf(s[|w|..], w);
        assert s == w + s[|w|..];
      } else {
        ReplaceBySelf(s[1..], w);
        assert s == [s[0]] + s[1..];
      }
    }
  }

  /** No occurrence before index `i` in `s` is none before `i - 1` in its
      tail. */
  lemma NoMatchShift(s: string, w: string, i: nat)
    requires 0 < i <= |s|
    requires forall j :: 0 <= j < i ==> !OccursAt(s, w, j)
    ensures forall j :: 0 <= j < i - 1 ==> !OccursAt(s[1..], w, j)
  {
    forall j | 0 <= j < i - 1 ensures !OccursAt(s[1..], w, j) {
      assert !OccursAt(s, w, j + 1);
      if j <= |s| - 1 - |w| {
        assert s[1..][j..j + |w|] == s[j + 1..j + 1 + |w|];
      }
    }
  }

  /** A text with no occurrence before index `i` counts what its tail from
      `i` counts. */
  lemma {:induction false} CountSkip(s: string, w: string, i: nat)
    requires |w| > 0 && i <= |s|
    requires forall j :: 0 <= j < i ==> !OccursAt(s, w, j)
    ensures Count(s, w) == Count(s[i..], w)
    decreases i
  {
    if i > 0 && |s| >= |w| {
      assert !OccursAt(s, w, 0);
      NoMatchShift(s, w, i);
      CountSkip(s[1..], w, i - 1);
      assert s[1..][i - 1..] == s[i..];
    }
  }

  /** `Count` counts the cuts `SplitOn` makes: one fewer than its pieces.
      Both scan left to right and resume after each occurrence. */
  lemma {:induction false} CountIsSplitOn(s: string, w: string)
    requires |w| > 0
    ensures Count(s, w) == |SplitOn(s, w)| - 1
    decreases |s|
  {
    match FindFrom(s, w, 0)
    case None =>
      CountPositiveIffContains(s, w);
    case Some(i) =>
      CountSkip(s, w, i);
      var t := s[i..];
      assert IsPrefix(w, t) by { assert t[..|w|] == s[i..i + |w|]; }
      assert t[|w|..] == s[i + |w|..];
      CountIsSplitOn(s[i + |w|..], w);
  }

  /** Where `target` does not start the text, `Replace` keeps the first
      character. */
  lemma ReplaceNoMatch(s: string, w: string, u: string)
    requires |w| > 0 && |s| > 0 && !OccursAt(s, w, 0)
    ensures Replace(s, w, u) == [s[0]] + Replace(s[1..], w, u)
  {
    if |s| < |w| {
      assert Replace(s[1..], w, u) == s[1..];
      assert s == [s[0]] + s[1..];
    } else {
      assert !IsPrefix(w, s);
    }
  }

  /** A text with no occurrence before index `i` keeps its first `i`
      characters under `Replace`. */
  lemma {:induction false} ReplaceSkip(s: string, w: string, u: string, i: nat)
    requires |w| > 0 && i <= |s|
    requires forall j :: 0 <= j < i ==> !OccursAt(s, w, j)
    ensures Replace(s, w, u) == s[..i] + Replace(s[i..], w, u)
    decreases i
  {
    if i == 0 {
      assert s[..0] + Replace(s[0..], w, u) == Replace(s, w, u);
    } else {
      var t := s[1..];
      ReplaceNoMatch(s, w, u);
      NoMatchShift(s, w, i);
      ReplaceSkip(t, w, u, i - 1);
      assert t[i - 1..] == s[i..];
      ConsSlices(s, i, Replace(s, w, u), Replace(s[i..], w, u));
    }
  }

  /** The first character, then the next `i - 1`, are the first `i`. */
  lemma ConsSlices(s: string, i: nat, whole: string, tail: string)
    requires 0 < i <= |s| && whole == [s[0]] + (s[1..][..i - 1] + tail)
    ensures whole == s[..i] + tail
  {
    assert s[..i] == [s[0]] + s[1..][..i - 1];
  }

  /** `Replace` with a non-empty target is `SplitOn` followed by `Join` with
      the substitute: `s.replace(w, u) == u.join(s.split(w))`. */
  lemma {:induction false} ReplaceIsJoinSplitOn(s: string, w: string, u: string)
    requires |w| > 0
    ensures Replace(s, w, u) == Join(SplitOn(s, w), u)
    decreases |s|
  {
    match FindFrom(s, w, 0)
    case None =>
      ReplaceAbsent(s, w, u);
    case Some(i) =>
      ReplaceSkip(s, w, u, i);
      var t := s[i..];
      assert IsPrefix(w, t) by { assert t[..|w|] == s[i..i + |w|]; }
      assert t[|w|..] == s[i + |w|..];
      var rest := SplitOn(s[i + |w|..], w);
      ReplaceIsJoinSplitOn(s[i + |w|..], w, u);
      assert ([s[..i]] + rest)[1..] == rest;
  }

  // ---------------------------------------------------------------------
  // reading a file in text mode

  /** What Python's text mode hands back for a file's contents (universal
      newlines): `\r\n` and a lone `\r` both read as `\n`. */
  function UniversalNewlines(s: string): (r: string)
    ensures '\r' !in r
    ensures '\r' !in s ==> r == s
    ensures |r| <= |s|
    decreases |s|
  {
    if |s| == 0 then []
    else if s[0] == '\r' then
      "\n" + UniversalNewlines(if |s| > 1 && s[1] == '\n' then s[2..] else s[1..])
    else
      assert '\r' !in s ==> '\r' !in s[1..];
      [s[0]] + UniversalNewlines(s[1..])
  }

  /** A translated text reads the same a second time. */
  lemma UniversalNewlinesIdempotent(s: string)
    ensures UniversalNewlines(UniversalNewlines(s)) == UniversalNewlines(s)
  {
  }

  /** Text without `\r` passes through unchanged, whatever follows it. */
  lemma {:induction false} UniversalNewlinesPlain(x: string, y: string)
    requires '\r' !in x
    ensures UniversalNewlines(x + y) == x + UniversalNewlines(y)
    decreases |x|
  {
    if |x| > 0 {
      assert x[0] in x && (x + y)[0] == x[0] != '\r';
      assert (x + y)[1..] == x[1..] + y;
      UniversalNewlinesPlain(x[1..], y);
      assert x == [x[0]] + x[1..];
    } else {
      assert x + y == y;
    }
  }

  /** Each of the three line ends reads as `\n`; a lone `\r` only when no
      `\n` follows it, since `\r\n` is one line end. */
  lemma UniversalNewlinesLineEnd(nl: string, y: string)
    requires nl == "\r\n" || nl == "\r" || nl == "\n"
    requires nl == "\r" ==> y == [] || y[0] != '\n'
    ensures UniversalNewlines(nl + y) == "\n" + UniversalNewlines(y)
  {
    assert (nl + y)[0] == nl[0];
    if nl == "\r\n" {
      assert (nl + y)[1] == '\n' && (nl + y)[2..] == y;
    } else {
      assert (nl + y)[1..] == y;
    }
  }

  /** Lines joined with any one of the three line ends read back as the
      same lines joined with `\n`. */
  lemma {:induction false} UniversalNewlinesJoin(lines: seq<string>, nl: string)
    requires nl == "\r\n" || nl == "\r" || nl == "\n"
    requires forall i :: 0 <= i < |lines| ==> '\n' !in lines[i] && '\r' !in lines[i]
    ensures UniversalNewlines(Join(lines, nl)) == Join(lines, "\n")
    decreases |lines|
  {
    if |lines| > 1 {
      var tail := lines[1..];
      var rest := Join(tail, nl);
      assert forall i :: 0 <= i < |tail| ==> tail[i] == lines[i + 1];
      if nl == "\r" {
        JoinChars(tail, nl, '\n');
        assert rest == [] || rest[0] != '\n' by {
          if rest != [] { assert rest[0] in rest; }
        }
      }
      assert lines[0] + nl + rest == lines[0] + (nl + rest);
      UniversalNewlinesPlain(lines[0], nl + rest);
      UniversalNewlinesLineEnd(nl, rest);
      UniversalNewlinesJoin(tail, nl);
    }
  }

  // ---------------------------------------------------------------------
  // rfind and os.path.splitext

  /** Python's `str.rfind` for one character: the last index of `c`, or -1. */
  function RFind(s: string, c: char): (r: int)
    ensures -1 <= r < |s|
    ensures r >= 0 ==> s[r] == c
    ensures forall j :: r < j < |s| ==> s[j] != c
    decreases |s|
  {
    if |s| == 0 then -1
    else if s[|s| - 1] == c then |s| - 1
    else RFind(s[..|s| - 1], c)
  }

  /** The three properties of `RFind` pin its value down. */
  lemma RFindIs(s: string, c: char, r: int)
    requires -1 <= r < |s|
    requires r >= 0 ==> s[r] == c
    requires forall j :: r < j < |s| ==> s[j] != c
    ensures RFind(s, c) == r
  {
  }

  lemma {:induction false} RFindAppendFound(a: string, b: string, c: char)
    requires c in b
    ensures RFind(a + b, c) == |a| + RFind(b, c)
  {
    var s := a + b;
    var rb := RFind(b, c);
    assert rb >= 0 by {
      var k :| 0 <= k < |b| && b[k] == c;
    }
    forall j | |a| + rb < j < |s| ensures s[j] != c {
      assert s[j] == b[j - |a|];
    }
    RFindIs(s, c, |a| + rb);
  }

  lemma RFindAppendMissing(a: string, b: string, c: char)
    requires c !in b
    ensures RFind(a + b, c) == RFind(a, c)
  {
    var s := a + b;
    var ra := RFind(a, c);
    forall j | ra < j < |s| ensures s[j] != c {
      if j >= |a| {
        assert s[j] == b[j - |a|];
      } else {
        assert s[j] == a[j];
      }
    }
    RFindIs(s, c, ra);
  }

  /** `s` has a character other than `.`. */
  predicate HasNonDot(s: string) {
    exists i :: 0 <= i < |s| && s[i] != '.'
  }

  /** The last path component of `p` (what follows its last `/`) has a
      character other than `.`. */
  predicate HasNamedStem(p: string) {
    HasNonDot(p[RFind(p, '/') + 1..])
  }

  /** A well-formed extension: a `.` followed by anything but `.` and `/`. */
  predicate IsExtension(e: string) {
    |e| > 0 && e[0] == '.' && '.' !in e[1..] && '/' !in e
  }

  /** Python's `os.path.splitext` (POSIX): the extension starts at the last
      `.` of the last path component, provided some character other than `.`
      precedes that dot within the component; otherwise it is empty. */
  function SplitExt(p: string): (r: (string, string))
    ensures r.0 + r.1 == p
    ensures r.1 == [] || (IsExtension(r.1) && HasNamedStem(r.0))
  {
    var i := ExtStart(p);
    if i < 0 then (p, []) else (p[..i], p[i..])
  }

  /** Where `splitext` cuts: the last `.` when it follows the last `/` and
      something other than a dot precedes it in the component, else -1. */
  function ExtStart(p: string): (i: int)
    ensures -1 <= i < |p|
    ensures i >= 0 ==> IsExtension(p[i..]) && HasNamedStem(p[..i])
  {
    var sep := RFind(p, '/');
    var dot := RFind(p, '.');
    if dot > sep && HasNonDot(p[sep + 1..dot]) then
      ExtensionAtLastDot(p, sep, dot);
      dot
    else
      -1
  }

  /** When the last `.` follows the last `/` and something other than a
      dot precedes it in the component, splitting there gives a
      well-formed extension after a named stem. */
  lemma ExtensionAtLastDot(p: string, sep: int, dot: int)
    requires sep == RFind(p, '/') && dot == RFind(p, '.')
    requires dot > sep && HasNonDot(p[sep + 1..dot])
    ensures IsExtension(p[dot..]) && HasNamedStem(p[..dot])
  {
    var base, ext := p[..dot], p[dot..];
    forall j | 0 <= j < |ext| ensures ext[j] != '/' {
      assert ext[j] == p[dot + j];
    }
    forall j | 0 <= j < |ext| - 1 ensures ext[1..][j] != '.' {
      assert ext[1..][j] == p[dot + 1 + j];
    }
    RFindIs(base, '/', sep);
    assert base[sep + 1..] == p[sep + 1..dot];
  }

  /** The empty-extension case happens exactly when no split was possible:
      either there is no `.` in the last component, or only dots precede the
      last one. */
  lemma SplitExtEmpty(p: string)
    ensures SplitExt(p).1 == [] <==>
      (RFind(p, '.') <= RFind(p, '/') || !HasNonDot(p[RFind(p, '/') + 1..RFind(p, '.')]))
  {
  }

  /** Appending a well-formed extension to a name with a proper stem is
      undone by `SplitExt`. */
  lemma SplitExtOfJoin(base: string, ext: string)
    requires IsExtension(ext) && HasNamedStem(base)
    ensures SplitExt(base + ext) == (base, ext)
  {
    var p := base + ext;
    RFindAppendMissing(base, ext, '/');
    var sep := RFind(base, '/');
    assert RFind(p, '/') == sep;
    forall j | |base| < j < |p| ensures p[j] != '.' {
      assert p[j] == ext[1..][j - |base| - 1];
    }
    RFindIs(p, '.', |base|);
    assert p[sep + 1..|base|] == base[sep + 1..];
    assert p[..|base|] == base && p[|base|..] == ext;
  }

  lemma HasNamedStemAppend(a: string, b: string)
    requires '/' !in b && HasNonDot(b)
    ensures HasNamedStem(a + b)
  {
    RFindAppendMissing(a, b, '/');
    var sep := RFind(a, '/');
    assert (a + b)[sep + 1..] == a[sep + 1..] + b;
    HasNonDotAppend(a[sep + 1..], b);
  }

  lemma HasNonDotAppend(t: string, u: string)
    requires HasNonDot(u)
    ensures HasNonDot(t + u)
  {
    var i :| 0 <= i < |u| && u[i] != '.';
    assert (t + u)[|t| + i] == u[i];
  }

  // ---------------------------------------------------------------------
  // decimal numerals

  function DigitValue(c: char): nat
    requires IsDigit(c)
  {
    (c - '0') as nat
  }

  function DigitChar(d: nat): (c: char)
    requires d < 10
    ensures IsDigit(c) && DigitValue(c) == d
  {
    ('0' as int + d) as char
  }

  predicate AllDigits(s: string) {
    forall i :: 0 <= i < |s| ==> IsDigit(s[i])
  }

  /** The number a run of decimal digits denotes (Python's `int(...)`). */
  function DecimalValue(ds: string): nat
    requires AllDigits(ds)
    decreases |ds|
  {
    if |ds| == 0 then 0
    else DecimalValue(ds[..|ds| - 1]) * 10 + DigitValue(ds[|ds| - 1])
  }

  /** Python's `str(n)` for a natural number. */
  function NatToString(n: nat): (s: string)
    ensures |s| > 0 && AllDigits(s)
    decreases n
  {
    if n < 10 then [DigitChar(n)] else NatToString(n / 10) + [DigitChar(n % 10)]
  }

  lemma {:induction false} DecimalValueOfNatToString(n: nat)
    ensures DecimalValue(NatToString(n)) == n
    decreases n
  {
    if n >= 10 {
      var s := NatToString(n);
      assert s[..|s| - 1] == NatToString(n / 10);
      DecimalValueOfNatToString(n / 10);
    }
  }
}
