/**
 * The Python `str` operations the summary pipeline is built from, restricted to
 * ASCII: `find`, `split(sep)`, `split(sep, 1)`, `sep.join`, `replace`,
 * `split()`, `strip()`, `lstrip(c)`, `splitlines()[0]` and `f"{n}"` for a
 * natural number.
 */
module PyText {

  datatype Option<T> = None | Some(value: T)

  /** `c.isspace()` for the ASCII range: space, \t \n \v \f \r and the four
      separator controls \x1c..\x1f. */
  predicate IsSpace(c: char) {
    c == ' ' || ('\t' <= c <= '\r') || ('\U{1C}' <= c <= '\U{1F}')
  }

  /** The line boundaries `str.splitlines` recognises in the ASCII range:
      \n \r \v \f and \x1c \x1d \x1e (\r\n ends the line at \r). */
  predicate IsLineBreak(c: char) {
    ('\n' <= c <= '\r') || ('\U{1C}' <= c <= '\U{1E}')
  }

  predicate IsDigit(c: char) {
    '0' <= c <= '9'
  }

  predicate StartsWith(s: string, prefix: string) {
    |prefix| <= |s| && s[..|prefix|] == prefix
  }

  predicate EndsWith(s: string, suffix: string) {
    |suffix| <= |s| && s[|s| - |suffix|..] == suffix
  }

  /** A text whose first character is `c` starts with `[c]`. */
  lemma StartsWithFirst(s: string, c: char)
    requires |s| > 0 && s[0] == c
    ensures StartsWith(s, [c])
  {
    assert s[..1] == [c];
  }

  /** A text that differs from `p` at some index within both does not start
      with `p`. */
  lemma DiffersAt(s: string, p: string, i: nat)
    requires i < |s| && i < |p| && s[i] != p[i]
    ensures !StartsWith(s, p)
  {
    if |p| <= |s| {
      assert s[..|p|][i] == s[i];
    }
  }

  /** Regrouping a concatenation, for texts whose contents the solver should
      not unfold. */
  lemma ConcatAssoc(a: string, b: string, c: string)
    ensures a + b + c == a + (b + c)
  {
  }

  /** Appending one element after a concatenation: `(pre + f) + [e]` is
      `pre + (f + [e])`. */
  lemma AppendOne<T>(x: seq<T>, pre: seq<T>, f: seq<T>, e: T)
    requires x == pre + f
    ensures x + [e] == pre + (f + [e])
  {
  }

  /** What follows a prefix. */
  lemma DropPrefix(a: string, b: string)
    ensures (a + b)[|a|..] == b && (a + b)[..|a|] == a
  {
  }

  /** `p` occurs in `s` starting at index `i`. */
  predicate OccursAt(s: string, p: string, i: int) {
    0 <= i && i + |p| <= |s| && forall t :: i <= t < i + |p| ==> s[t] == p[t - i]
  }

  /** `p` occurs nowhere in `s`. */
  predicate NoOccurrence(s: string, p: string) {
    forall i :: 0 <= i <= |s| ==> !OccursAt(s, p, i)
  }

  /** `p` occurs nowhere in `s` at or after index `n`. */
  predicate NoneFrom(s: string, p: string, n: int) {
    forall j :: n <= j <= |s| ==> !OccursAt(s, p, j)
  }

  /** No whitespace at either end: what `strip()` leaves. */
  predicate IsStripped(s: string) {
    s == [] || (!IsSpace(s[0]) && !IsSpace(s[|s| - 1]))
  }

  /** Every character of `s` is whitespace (the empty text included). */
  predicate AllSpace(s: string) {
    forall i :: 0 <= i < |s| ==> IsSpace(s[i])
  }

  /** An occurrence inside a slice is an occurrence in the whole text. */
  lemma OccursInSlice(s: string, p: string, lo: nat, hi: nat, j: int)
    requires lo <= hi <= |s|
    ensures OccursAt(s[lo..hi], p, j) <==> 0 <= j && j + |p| <= hi - lo && OccursAt(s, p, lo + j)
  {
    if 0 <= j && j + |p| <= hi - lo {
      var a, b := s[lo..hi][j..j + |p|], s[lo + j..lo + j + |p|];
      assert |a| == |b| && forall m :: 0 <= m < |a| ==> a[m] == b[m];
      assert a == b;
    }
  }

  // ---------------------------------------------------------------------------
  // find, split, join, replace

  /** `s.find(p, k)`: the first index at or after `k` at which `p` occurs, if any. */
  function FindFrom(s: string, p: string, k: nat): (r: Option<nat>)
    requires |p| > 0 && k <= |s|
    ensures r.Some? ==> k <= r.value && OccursAt(s, p, r.value)
    ensures r.Some? ==> forall j :: k <= j < r.value ==> !OccursAt(s, p, j)
    ensures r.None? ==> NoneFrom(s, p, k)
    decreases |s| - k
  {
    if k + |p| > |s| then None
    else if OccursAt(s, p, k) then Some(k)
    else FindFrom(s, p, k + 1)
  }

  /** `s.find(p)` */
  function Find(s: string, p: string): (r: Option<nat>)
    requires |p| > 0
    ensures r.Some? ==> OccursAt(s, p, r.value) && forall j :: 0 <= j < r.value ==> !OccursAt(s, p, j)
    ensures r.None? <==> NoOccurrence(s, p)
  {
    FindFrom(s, p, 0)
  }

  /** `sep.join(parts)`. */
  function Join(parts: seq<string>, sep: string): string
  {
    if |parts| == 0 then ""
    else if |parts| == 1 then parts[0]
    else parts[0] + sep + Join(parts[1..], sep)
  }

  /** Two pieces or more are joined with at least one separator. */
  lemma JoinOfSeveral(parts: seq<string>, sep: string)
    requires |parts| >= 2
    ensures |Join(parts, sep)| >= |sep|
  {
  }

  /** The pieces of `s[k..]` between the occurrences of `sep`, found from left to right. */
  function SplitFrom(s: string, sep: string, k: nat): (r: seq<string>)
    requires |sep| > 0 && k <= |s|
    ensures |r| >= 1
    ensures forall m :: 0 <= m < |r| ==> NoOccurrence(r[m], sep)
    decreases |s| - k
  {
    match FindFrom(s, sep, k)
    case None =>
      assert NoOccurrence(s[k..], sep) by {
        forall j ensures !OccursAt(s[k..], sep, j) {
          OccursInSlice(s, sep, k, |s|, j);
        }
      }
      [s[k..]]
    case Some(i) =>
      var rest := SplitFrom(s, sep, i + |sep|);
      assert NoOccurrence(s[k..i], sep) by {
        forall j ensures !OccursAt(s[k..i], sep, j) {
          OccursInSlice(s, sep, k, i, j);
        }
      }
      [s[k..i]] + rest
  }

  /** Joining the pieces with the separator gives back the text they came from. */
  lemma {:induction false} JoinSplitFrom(s: string, sep: string, k: nat)
    requires |sep| > 0 && k <= |s|
    ensures Join(SplitFrom(s, sep, k), sep) == s[k..]
    decreases |s| - k
  {
    match FindFrom(s, sep, k)
    case None =>
    case Some(i) =>
      var rest := SplitFrom(s, sep, i + |sep|);
      JoinSplitFrom(s, sep, i + |sep|);
      assert SplitFrom(s, sep, k) == [s[k..i]] + rest;
      assert ([s[k..i]] + rest)[1..] == rest;
      assert s[k..] == s[k..i] + sep + s[i + |sep|..];
  }

  /** `s.split(sep)` for a non-empty separator: the pieces between the
      non-overlapping occurrences found from left to right. No piece contains
      the separator. */
  function Split(s: string, sep: string): (r: seq<string>)
    requires |sep| > 0
    ensures |r| >= 1
    ensures forall m :: 0 <= m < |r| ==> NoOccurrence(r[m], sep)
  {
    assert s[0..] == s;
    SplitFrom(s, sep, 0)
  }

  /** Text without the separator splits into itself alone. */
  lemma SplitWithoutSeparator(s: string, sep: string)
    requires |sep| > 0 && NoOccurrence(s, sep)
    ensures Split(s, sep) == [s]
  {
    assert s[0..] == s;
  }

  /** Joining the pieces with the separator gives back the text. */
  lemma SplitRejoin(s: string, sep: string)
    requires |sep| > 0
    ensures Join(Split(s, sep), sep) == s
  {
    assert s[0..] == s;
    JoinSplitFrom(s, sep, 0);
  }

  /** `s.split(sep, 1)`: one piece when `sep` does not occur, otherwise the text
      before its first occurrence and everything after it. */
  function SplitOnce(s: string, sep: string): (r: seq<string>)
    requires |sep| > 0
    ensures |r| == 1 || |r| == 2
    ensures |r| == 1 <==> NoOccurrence(s, sep)
    ensures |r| == 1 ==> r[0] == s
    ensures |r| == 2 ==> s == r[0] + sep + r[1] && OccursAt(s, sep, |r[0]|)
    ensures |r| == 2 ==> forall j :: 0 <= j < |r[0]| ==> !OccursAt(s, sep, j)
  {
    match Find(s, sep)
    case None => [s]
    case Some(i) =>
      assert s == s[..i] + sep + s[i + |sep|..];
      [s[..i], s[i + |sep|..]]
  }

  lemma {:induction false} JoinEndsWithLast(parts: seq<string>, sep: string)
    requires |parts| >= 1
    ensures EndsWith(Join(parts, sep), parts[|parts| - 1])
  {
    if |parts| > 1 {
      JoinEndsWithLast(parts[1..], sep);
    }
  }

  /** `s.split(sep)[-1]`: the text after the last occurrence of `sep`, or all
      of `s` when there is none. */
  function AfterLast(s: string, sep: string): (r: string)
    requires |sep| > 0
    ensures NoOccurrence(r, sep)
    ensures EndsWith(s, r)
    ensures NoOccurrence(s, sep) ==> r == s
  {
    var parts := Split(s, sep);
    SplitRejoin(s, sep);
    JoinEndsWithLast(parts, sep);
    parts[|parts| - 1]
  }

  /** `s.replace(target, replacement)`: every non-overlapping occurrence found
      from left to right is replaced, which is `replacement.join(s.split(target))`. */
  function Replace(s: string, target: string, replacement: string): (r: string)
    requires |target| > 0
    ensures NoOccurrence(s, target) ==> r == s
  {
    Join(Split(s, target), replacement)
  }

  /** `p` has no border (no proper suffix of it is also a prefix), so two of
      its occurrences never overlap. */
  predicate NonOverlapping(p: string) {
    forall d :: 0 < d < |p| ==> !IsBorder(p, d)
  }

  /** The last `|p| - d` characters of `p` are also its first ones. */
  predicate IsBorder(p: string, d: nat)
    requires d <= |p|
  {
    p[d..] == p[..|p| - d]
  }

  /** Two overlapping occurrences of `p` make a border of `p`. */
  lemma OverlapIsBorder(s: string, p: string, i: nat, m: nat)
    requires OccursAt(s, p, i) && OccursAt(s, p, m) && i < m < i + |p|
    ensures IsBorder(p, m - i)
  {
    var d := m - i;
    forall t | 0 <= t < |p| - d ensures p[d..][t] == p[..|p| - d][t] {
      assert s[i..i + |p|][d + t] == s[i + d + t];
      assert s[m..m + |p|][t] == s[m + t];
    }
  }

  lemma OccurrencesApart(s: string, p: string, i: nat, m: nat)
    requires NonOverlapping(p) && OccursAt(s, p, i) && OccursAt(s, p, m) && i < m
    ensures i + |p| <= m
  {
    if m < i + |p| {
      OverlapIsBorder(s, p, i, m);
    }
  }

  function Last(parts: seq<string>): string
    requires |parts| >= 1
  {
    parts[|parts| - 1]
  }

  /** Where the last piece of `SplitFrom(s, p, k)` starts: just after the last
      occurrence found, or at `k` when there is none. */
  function LastStart(s: string, p: string, k: nat): (r: nat)
    requires |p| > 0 && k <= |s|
    ensures k <= r <= |s|
    decreases |s| - k
  {
    match FindFrom(s, p, k)
    case None => k
    case Some(i) => LastStart(s, p, i + |p|)
  }

  lemma {:induction false} LastOfSplitFrom(s: string, p: string, k: nat)
    requires |p| > 0 && k <= |s|
    ensures |Last(SplitFrom(s, p, k))| == |s| - LastStart(s, p, k)
    decreases |s| - k
  {
    match FindFrom(s, p, k)
    case None =>
      assert SplitFrom(s, p, k) == [s[k..]];
    case Some(i) =>
      assert LastStart(s, p, k) == LastStart(s, p, i + |p|);
      LastOfSplitFrom(s, p, i + |p|);
      LastOfStep(s, p, k, i);
  }

  lemma LastOfStep(s: string, p: string, k: nat, i: nat)
    requires |p| > 0 && k <= |s| && FindFrom(s, p, k) == Some(i)
    ensures |Last(SplitFrom(s, p, k))| == |Last(SplitFrom(s, p, i + |p|))|
  {
    var rest := SplitFrom(s, p, i + |p|);
    var all := SplitFrom(s, p, k);
    assert all == [s[k..i]] + rest;
    assert all[|all| - 1] == rest[|rest| - 1];
  }

  /** When occurrences of `p` cannot overlap, the last piece starts right
      after the last occurrence of `p` in the text. */
  lemma {:induction false} LastPieceFrom(s: string, p: string, k: nat, m: nat)
    requires |p| > 0 && NonOverlapping(p) && k <= m && OccursAt(s, p, m)
    requires NoneFrom(s, p, m + |p|)
    ensures LastStart(s, p, k) == m + |p|
    decreases |s| - k
  {
    var f := FindFrom(s, p, k);
    assert f.Some? && f.value <= m;
    var i := f.value;
    if i < m {
      OccurrencesApart(s, p, i, m);
      LastPieceFrom(s, p, i + |p|, m);
    } else {
      assert FindFrom(s, p, m + |p|).None?;
    }
  }

  /** The text after the last `p` of `x + p + y` is `y` when `y` holds no `p`
      and occurrences of `p` cannot overlap. */
  lemma AfterLastOfJoined(x: string, p: string, y: string)
    requires |p| > 0 && NonOverlapping(p) && NoOccurrence(y, p)
    ensures AfterLast(x + p + y, p) == y
  {
    var s := x + p + y;
    assert OccursAt(s, p, |x|);
    assert s[|x| + |p|..|s|] == y;
    forall j | |x| + |p| <= j <= |s| ensures !OccursAt(s, p, j) {
      OccursInSlice(s, p, |x| + |p|, |s|, j - |x| - |p|);
    }
    LastPieceFrom(s, p, 0, |x|);
    LastOfSplitFrom(s, p, 0);
    assert SplitFrom(s, p, 0) == Split(s, p);
    var r := AfterLast(s, p);
    assert |r| == |y|;
  }

  /** A one-character pattern occurs exactly where that character is. */
  lemma OccursOneChar(s: string, c: char, j: int)
    ensures OccursAt(s, [c], j) <==> 0 <= j < |s| && s[j] == c
  {
    if 0 <= j < |s| {
      assert [c][j - j] == c;
    }
  }

  /** A character absent from the text never occurs as a one-character pattern. */
  lemma AbsentCharNoOccurrence(s: string, c: char)
    requires c !in s
    ensures NoOccurrence(s, [c])
  {
    forall j | 0 <= j <= |s| ensures !OccursAt(s, [c], j) {
      OccursOneChar(s, c, j);
    }
  }

  /** A pattern whose first character is absent from the text never occurs. */
  lemma FirstCharAbsent(s: string, p: string)
    requires |p| > 0 && p[0] !in s
    ensures NoOccurrence(s, p)
  {
    forall j | 0 <= j <= |s| ensures !OccursAt(s, p, j) {
      if j + |p| <= |s| {
        assert s[j] != p[0];
      }
    }
  }

  lemma {:induction false} SplitFromJoin(pre: string, parts: seq<string>, c: char)
    requires |parts| >= 1
    requires forall k :: 0 <= k < |parts| ==> c !in parts[k]
    ensures SplitFrom(pre + Join(parts, [c]), [c], |pre|) == parts
    decreases |parts|
  {
    var s := pre + Join(parts, [c]);
    var t := |pre| + |parts[0]|;
    JoinedHead(pre, parts, c);
    if |parts| == 1 {
      SplitFromLast(s, |pre|, c);
      assert s[|pre|..] == s[|pre|..t];
    } else {
      var pre' := pre + parts[0] + [c];
      SplitFromFound(s, |pre|, t, c);
      SplitFromJoin(pre', parts[1..], c);
      assert [parts[0]] + parts[1..] == parts;
    }
  }

  /** Text joined on `c` after `pre` opens with its first part, which holds
      no `c`, followed by the end of the text or by `c` and the rest joined. */
  lemma JoinedHead(pre: string, parts: seq<string>, c: char)
    requires |parts| >= 1 && c !in parts[0]
    ensures var s, t := pre + Join(parts, [c]), |pre| + |parts[0]|;
      t <= |s| && s[|pre|..t] == parts[0] && forall j :: |pre| <= j < t ==> s[j] != c
    ensures |parts| == 1 ==> |pre + Join(parts, [c])| == |pre| + |parts[0]|
    ensures |parts| >= 2 ==>
      var s, t := pre + Join(parts, [c]), |pre| + |parts[0]|;
      t < |s| && s[t] == c && s == (pre + parts[0] + [c]) + Join(parts[1..], [c])
  {
    var s := pre + Join(parts, [c]);
    var t := |pre| + |parts[0]|;
    if |parts| >= 2 {
      assert s == (pre + parts[0] + [c]) + Join(parts[1..], [c]);
    }
    assert s[|pre|..t] == parts[0];
    forall j | |pre| <= j < t ensures s[j] != c {
      assert s[j] == parts[0][j - |pre|];
    }
  }

  /** Without the separator after `k`, what is left is one piece. */
  lemma SplitFromLast(s: string, k: nat, c: char)
    requires k <= |s|
    requires forall j :: k <= j < |s| ==> s[j] != c
    ensures SplitFrom(s, [c], k) == [s[k..]]
  {
    forall j | k <= j <= |s| ensures !OccursAt(s, [c], j) {
      OccursOneChar(s, c, j);
    }
  }

  /** The first separator at or after `k`, at `t`, ends the first piece. */
  lemma SplitFromFound(s: string, k: nat, t: nat, c: char)
    requires k <= t < |s| && s[t] == c
    requires forall j :: k <= j < t ==> s[j] != c
    ensures SplitFrom(s, [c], k) == [s[k..t]] + SplitFrom(s, [c], t + 1)
  {
    forall j | k <= j < t ensures !OccursAt(s, [c], j) {
      OccursOneChar(s, c, j);
    }
    OccursOneChar(s, c, t);
    FindFirstAt(s, [c], k, t);
  }

  /** An occurrence with none before it, from `k`, is the one found. */
  lemma FindFirstAt(s: string, p: string, k: nat, t: nat)
    requires |p| > 0 && k <= t && OccursAt(s, p, t)
    requires forall j :: k <= j < t ==> !OccursAt(s, p, j)
    ensures FindFrom(s, p, k) == Some(t)
  {
  }

  /** Splitting text joined on a one-character separator that no part holds
      gives back the parts. */
  lemma SplitJoin(parts: seq<string>, c: char)
    requires |parts| >= 1
    requires forall k :: 0 <= k < |parts| ==> c !in parts[k]
    ensures Split(Join(parts, [c]), [c]) == parts
  {
    SplitFromJoin("", parts, c);
    assert "" + Join(parts, [c]) == Join(parts, [c]);
  }

  /** `s.split(sep)[0]` is `s.split(sep, 1)[0]`: the text before the first
      occurrence. */
  lemma SplitFirstPiece(s: string, sep: string)
    requires |sep| > 0
    ensures Split(s, sep)[0] == SplitOnce(s, sep)[0]
  {
    assert s[0..] == s;
    match FindFrom(s, sep, 0)
    case None =>
    case Some(i) =>
      assert SplitFrom(s, sep, 0)[0] == s[0..i];
  }

  /** A character in neither the parts nor the separator is not in their join. */
  lemma {:induction false} JoinAvoids(parts: seq<string>, sep: string, c: char)
    requires c !in sep && forall k :: 0 <= k < |parts| ==> c !in parts[k]
    ensures c !in Join(parts, sep)
  {
    if |parts| > 1 {
      JoinAvoids(parts[1..], sep, c);
    }
  }

  /** A pattern whose last character appears nowhere else in it has no border. */
  lemma UniqueLastNonOverlapping(p: string)
    requires |p| > 0 && forall i :: 0 <= i < |p| - 1 ==> p[i] != p[|p| - 1]
    ensures NonOverlapping(p)
  {
    forall d | 0 < d < |p| ensures !IsBorder(p, d) {
      assert p[d..][|p| - d - 1] == p[|p| - 1];
      assert p[..|p| - d][|p| - d - 1] == p[|p| - d - 1];
    }
  }

  /** A character foreign to `p` shields `a` from a short prefix `b`: `p` occurs
      in `b + [c] + a` only where it occurs in `a`, and it occurs nowhere in `a`. */
  lemma NoOccurrenceAround(b: string, c: char, a: string, p: string)
    requires |b| < |p| && c !in p && NoOccurrence(a, p)
    ensures NoOccurrence(b + [c] + a, p)
  {
    var s := b + [c] + a;
    assert s[|b| + 1..|s|] == a;
    forall j | 0 <= j <= |s| ensures !OccursAt(s, p, j) {
      if j <= |b| {
        assert s[|b|] == c;
      } else {
        OccursInSlice(s, p, |b| + 1, |s|, j - |b| - 1);
      }
    }
  }

  /** Appending a character foreign to `p` creates no occurrence of `p`. */
  lemma NoOccurrenceAppend(a: string, c: char, p: string)
    requires |p| > 0 && c !in p && NoOccurrence(a, p)
    ensures NoOccurrence(a + [c], p)
  {
    var s := a + [c];
    assert s[0..|a|] == a;
    forall j | 0 <= j <= |s| ensures !OccursAt(s, p, j) {
      if j + |p| == |s| {
        assert s[|s| - 1] == c;
      } else {
        OccursInSlice(s, p, 0, |a|, j);
      }
    }
  }

  /** `split(sep, 1)` cuts at the first occurrence of a border-free separator:
      whatever follows it, `x + p + y` splits into `x` and `y` when `x` holds no
      `p`. */
  lemma SplitOnceAtFirst(x: string, p: string, y: string)
    requires |p| > 0 && NonOverlapping(p) && NoOccurrence(x, p)
    ensures SplitOnce(x + p + y, p) == [x, y]
  {
    var s := x + p + y;
    assert OccursAt(s, p, |x|);
    assert s[0..|x|] == x && s[..|x|] == x && s[|x| + |p|..] == y;
    forall j | 0 <= j < |x| ensures !OccursAt(s, p, j) {
      if OccursAt(s, p, j) {
        OccurrencesApart(s, p, j, |x|);
        OccursInSlice(s, p, 0, |x|, j);
      }
    }
    assert FindFrom(s, p, 0) == Some(|x|);
  }

  /** Around a single occurrence of a border-free separator, `split` gives the
      two sides. */
  lemma SplitAround(x: string, p: string, y: string)
    requires |p| > 0 && NonOverlapping(p) && NoOccurrence(x, p) && NoOccurrence(y, p)
    ensures Split(x + p + y, p) == [x, y]
  {
    var s := x + p + y;
    var m := |x| + |p|;
    SplitOnceAtFirst(x, p, y);
    assert s[0..|x|] == x && s[m..|s|] == y && s[m..] == y;
    forall j | m <= j <= |s| ensures !OccursAt(s, p, j) {
      OccursInSlice(s, p, m, |s|, j - m);
    }
    assert FindFrom(s, p, 0) == Some(|x|);
    assert FindFrom(s, p, m).None?;
    assert SplitFrom(s, p, m) == [y];
    assert SplitFrom(s, p, 0) == [x] + [y];
  }

  /** `replace` rewrites the single occurrence of a border-free pattern. */
  lemma ReplaceSingle(x: string, p: string, y: string, replacement: string)
    requires |p| > 0 && NonOverlapping(p) && NoOccurrence(x, p) && NoOccurrence(y, p)
    ensures Replace(x + p + y, p, replacement) == x + replacement + y
  {
    SplitAround(x, p, y);
    var parts := [x, y];
    assert parts[1..] == [y];
    assert Join([y], replacement) == y;
    assert Join(parts, replacement) == x + replacement + Join([y], replacement);
  }

  // ---------------------------------------------------------------------------
  // whitespace

  /** `s.lstrip()` */
  function LStrip(s: string): (r: string)
    ensures |r| <= |s| && r == s[|s| - |r|..]
    ensures forall i :: 0 <= i < |s| - |r| ==> IsSpace(s[i])
    ensures r == [] || !IsSpace(r[0])
  {
    if s != [] && IsSpace(s[0]) then LStrip(s[1..]) else s
  }

  /** `s.rstrip()` */
  function RStrip(s: string): (r: string)
    ensures |r| <= |s| && r == s[..|r|]
    ensures forall i :: |r| <= i < |s| ==> IsSpace(s[i])
    ensures r == [] || !IsSpace(r[|r| - 1])
  {
    if s != [] && IsSpace(s[|s| - 1]) then RStrip(s[..|s| - 1]) else s
  }

  /** `s.strip()`: whitespace removed at both ends; text already free of
      surrounding whitespace is returned as it is. */
  function Strip(s: string): (r: string)
    ensures IsStripped(r) && |r| <= |s|
    ensures IsStripped(s) ==> r == s
  {
    RStrip(LStrip(s))
  }

  /** Whitespace added around stripped text is what `strip()` removes. */
  lemma {:induction false} StripSurrounded(x: string, t: string, y: string)
    requires AllSpace(x) && AllSpace(y) && IsStripped(t)
    ensures Strip(x + t + y) == t
    decreases |x| + |y|
  {
    if x != [] {
      assert (x + t + y)[1..] == x[1..] + t + y;
      StripSurrounded(x[1..], t, y);
    } else if y != [] {
      assert x + t + y == t + y;
      var z := t + y;
      assert LStrip(z) == z || t == [];
      if t == [] {
        assert LStrip(z) == [] by { LStripAllSpace(z); }
      } else {
        RStripAfterStripped(t, y);
      }
    } else {
      assert x + t + y == t;
    }
  }

  /** `lstrip()` removes exactly the leading whitespace, up to the first
      other character. */
  lemma {:induction false} LStripAfterSpace(x: string, t: string)
    requires AllSpace(x) && (t == [] || !IsSpace(t[0]))
    ensures LStrip(x + t) == t
  {
    if x != [] {
      assert (x + t)[1..] == x[1..] + t;
      LStripAfterSpace(x[1..], t);
    } else {
      assert x + t == t;
    }
  }

  lemma {:induction false} LStripAllSpace(s: string)
    requires AllSpace(s)
    ensures LStrip(s) == []
  {
    if s != [] {
      LStripAllSpace(s[1..]);
    }
  }

  lemma {:induction false} RStripAfterStripped(t: string, y: string)
    requires t != [] && IsStripped(t) && AllSpace(y)
    ensures RStrip(t + y) == t
    decreases |y|
  {
    if y != [] {
      assert (t + y)[..|t + y| - 1] == t + y[..|y| - 1];
      RStripAfterStripped(t, y[..|y| - 1]);
    } else {
      assert t + y == t;
    }
  }

  /** `c.lstrip(ch)` for one character: drops every leading `ch`. */
  function LStripChar(s: string, ch: char): (r: string)
    ensures EndsWith(s, r)
    ensures r == [] || r[0] != ch
    ensures forall i :: 0 <= i < |s| - |r| ==> s[i] == ch
  {
    if s != [] && s[0] == ch then LStripChar(s[1..], ch) else s
  }

  /** Length of the leading run of non-whitespace characters. */
  function WordLength(s: string): (n: nat)
    ensures n <= |s|
    ensures forall i :: 0 <= i < n ==> !IsSpace(s[i])
    ensures n == |s| || IsSpace(s[n])
  {
    if s == [] || IsSpace(s[0]) then 0 else 1 + WordLength(s[1..])
  }

  /** `s.split()`: the maximal runs of non-whitespace characters, in order. */
  function Words(s: string): (r: seq<string>)
    ensures |r| <= |s|
    decreases |s|
  {
    var t := LStrip(s);
    if t == [] then []
    else
      var n := WordLength(t);
      [t[..n]] + Words(t[n..])
  }

  /** Every piece `split()` gives is a word. */
  lemma {:induction false} WordsAreWords(s: string)
    ensures forall k :: 0 <= k < |Words(s)| ==> IsWord(Words(s)[k])
    decreases |s|
  {
    var t := LStrip(s);
    if t != [] {
      var n := WordLength(t);
      var head, rest := t[..n], Words(t[n..]);
      WordsAreWords(t[n..]);
      var w := Words(s);
      assert w == [head] + rest;
      assert IsWord(head);
      forall k | 0 <= k < |w| ensures IsWord(w[k]) {
        if k > 0 {
          assert w[k] == rest[k - 1];
        }
      }
    }
  }

  /** A non-empty run of non-whitespace characters. */
  predicate IsWord(w: string) {
    w != [] && forall i :: 0 <= i < |w| ==> !IsSpace(w[i])
  }

  /** Reference count of the maximal non-whitespace runs of `s`: the positions
      holding a non-whitespace character that is first or follows whitespace.
      `afterSpace` says whether the character before `s` was whitespace (or
      `s` is at the start). */
  function RunStarts(s: string, afterSpace: bool): nat
  {
    if s == [] then 0
    else (if afterSpace && !IsSpace(s[0]) then 1 else 0) + RunStarts(s[1..], IsSpace(s[0]))
  }

  lemma {:induction false} RunStartsSkipSpace(s: string)
    ensures RunStarts(s, true) == RunStarts(LStrip(s), true)
  {
    if s != [] && IsSpace(s[0]) {
      RunStartsSkipSpace(s[1..]);
    }
  }

  lemma {:induction false} RunStartsInsideWord(t: string, k: nat, n: nat)
    requires 1 <= k <= n <= |t|
    requires forall i :: 0 <= i < n ==> !IsSpace(t[i])
    requires n == |t| || IsSpace(t[n])
    ensures RunStarts(t[k..], false) == RunStarts(t[n..], true)
    decreases n - k
  {
    if k < n {
      assert t[k..][1..] == t[k + 1..];
      RunStartsInsideWord(t, k + 1, n);
    } else if n < |t| {
      assert t[n..][1..] == t[n + 1..];
    }
  }

  lemma {:induction false} RunStartsAtMost(s: string, afterSpace: bool)
    ensures RunStarts(s, afterSpace) <= |s|
  {
    if s != [] {
      RunStartsAtMost(s[1..], IsSpace(s[0]));
    }
  }

  /** `len(s.split())` is the number of maximal non-whitespace runs. */
  lemma {:induction false} WordsCountRuns(s: string)
    ensures |Words(s)| == RunStarts(s, true)
    decreases |s|
  {
    RunStartsSkipSpace(s);
    var t := LStrip(s);
    if t != [] {
      var n := WordLength(t);
      RunStartsInsideWord(t, 1, n);
      WordsCountRuns(t[n..]);
    }
  }

  /** `split()` gives no words exactly for blank text. */
  lemma NoWordsIffBlank(s: string)
    ensures Words(s) == [] <==> AllSpace(s)
  {
    if AllSpace(s) {
      LStripAllSpace(s);
    } else {
      var i :| 0 <= i < |s| && !IsSpace(s[i]);
      assert LStrip(s) != [];
    }
  }

  // ---------------------------------------------------------------------------
  // lines

  /** `s.splitlines()[0]`, which exists only for non-empty `s`: the text
      before the first line boundary. */
  function FirstLine(s: string): (r: string)
    requires s != []
    ensures StartsWith(s, r)
    ensures forall i :: 0 <= i < |r| ==> !IsLineBreak(r[i])
    ensures |r| == |s| || IsLineBreak(s[|r|])
  {
    if IsLineBreak(s[0]) then ""
    else if |s| == 1 then s
    else [s[0]] + FirstLine(s[1..])
  }

  // ---------------------------------------------------------------------------
  // decimal rendering of a count, as in f"{n}"

  function DigitChar(d: nat): (c: char)
    requires d < 10
    ensures IsDigit(c) && c as int - '0' as int == d
  {
    (d + '0' as int) as char
  }

  /** The decimal digits of `n`, no leading zero. */
  function Decimal(n: nat): (r: string)
    ensures |r| >= 1 && forall i :: 0 <= i < |r| ==> IsDigit(r[i])
    ensures r[0] == '0' ==> n == 0
  {
    if n < 10 then [DigitChar(n)] else Decimal(n / 10) + [DigitChar(n % 10)]
  }

  function DigitValue(c: char): nat
    requires IsDigit(c)
  {
    c as int - '0' as int
  }

  /** The number a string of decimal digits denotes (`int(s)`). */
  function DecimalValue(s: string): nat
    requires forall i :: 0 <= i < |s| ==> IsDigit(s[i])
  {
    if s == [] then 0 else 10 * DecimalValue(s[..|s| - 1]) + DigitValue(s[|s| - 1])
  }

  /** Reading back the rendered digits gives the number. */
  lemma {:induction false} DecimalRoundTrip(n: nat)
    ensures DecimalValue(Decimal(n)) == n
  {
    if n >= 10 {
      DecimalRoundTrip(n / 10);
      assert Decimal(n)[..|Decimal(n)| - 1] == Decimal(n / 10);
    }
  }
}
