/** Text primitives shared by the response parser and the fence cleaner:
    a leftmost-match scanner, substring search, character runs, JavaScript's
    whitespace set and `trim`, and decimal digit strings. */
module Strings {

  datatype Option<+T> = None | Some(value: T)

  /** The characters JavaScript's `\s` class and `String.prototype.trim` treat as
      white space: ECMAScript WhiteSpace (tab, vertical tab, form feed, space,
      no-break space, the Zs separators, byte order mark) and LineTerminator
      (line feed, carriage return, line and paragraph separators). */
  predicate IsSpace(c: char) {
    c == '\t' || c == '\n' || c == '\U{000B}' || c == '\U{000C}' || c == '\r' || c == ' '
    || c == '\U{00A0}' || c == '\U{1680}' || ('\U{2000}' <= c <= '\U{200A}')
    || c == '\U{2028}' || c == '\U{2029}' || c == '\U{202F}' || c == '\U{205F}'
    || c == '\U{3000}' || c == '\U{FEFF}'
  }

  /** The line terminators at which a multiline `^` or `$` may match. */
  predicate IsLineTerminator(c: char) {
    c == '\n' || c == '\r' || c == '\U{2028}' || c == '\U{2029}'
  }

  /** The `\d` class of a regular expression without the `u` flag. */
  predicate IsDigit(c: char) {
    '0' <= c <= '9'
  }

  predicate AllSpace(s: string) {
    forall k :: 0 <= k < |s| ==> IsSpace(s[k])
  }

  predicate AllDigits(s: string) {
    forall k :: 0 <= k < |s| ==> IsDigit(s[k])
  }

  /** `pat` occurs in `s` at index `i`. */
  predicate StartsAt(s: string, pat: string, i: nat) {
    i + |pat| <= |s| && s[i..i + |pat|] == pat
  }

  /** No occurrence of `pat` in `s` starts at an index in [lo, hi). */
  predicate NoneIn(s: string, pat: string, lo: nat, hi: nat) {
    forall j: nat :: lo <= j < hi ==> !StartsAt(s, pat, j)
  }

  ghost predicate Absent(s: string, pat: string) {
    forall j: nat :: !StartsAt(s, pat, j)
  }

  /** A pattern none of whose proper suffixes is also a prefix: two of its
      occurrences can never overlap. */
  predicate Unbordered(pat: string) {
    forall d :: 0 < d < |pat| ==> pat[d..] != pat[..|pat| - d]
  }

  /** The smallest position p >= from at which `matchesAt` holds: the position a
      regular expression without the `g` flag reports, given a predicate that says
      whether the expression matches starting at p. */
  function Leftmost(s: string, from: nat, matchesAt: (string, nat) -> bool): (r: Option<nat>)
    decreases |s| + 1 - from
    ensures r.Some? ==> from <= r.value <= |s| && matchesAt(s, r.value)
    ensures r.Some? ==> forall j: nat :: from <= j < r.value ==> !matchesAt(s, j)
    ensures r.None? ==> forall j: nat :: from <= j <= |s| ==> !matchesAt(s, j)
  {
    if from > |s| then None
    else if matchesAt(s, from) then Some(from)
    else Leftmost(s, from + 1, matchesAt)
  }

  /** The ensures of Leftmost determine its result. */
  lemma LeftmostIs(s: string, from: nat, matchesAt: (string, nat) -> bool, p: nat)
    requires from <= p <= |s| && matchesAt(s, p)
    requires forall j: nat :: from <= j < p ==> !matchesAt(s, j)
    ensures Leftmost(s, from, matchesAt) == Some(p)
  {
  }

  lemma LeftmostNone(s: string, from: nat, matchesAt: (string, nat) -> bool)
    requires forall j: nat :: from <= j <= |s| ==> !matchesAt(s, j)
    ensures Leftmost(s, from, matchesAt) == None
  {
  }

  /** `s.indexOf(pat, from)`, as an option. */
  function Find(s: string, pat: string, from: nat): (r: Option<nat>)
    ensures r.Some? ==> from <= r.value && StartsAt(s, pat, r.value) && NoneIn(s, pat, from, r.value)
    ensures r.None? ==> forall j: nat :: from <= j ==> !StartsAt(s, pat, j)
  {
    var occursAt := (t: string, i: nat) => StartsAt(t, pat, i);
    assert forall j: nat :: occursAt(s, j) == StartsAt(s, pat, j);
    Leftmost(s, from, occursAt)
  }

  /** The ensures of Find determine its result. */
  lemma FindIs(s: string, pat: string, from: nat, p: nat)
    requires from <= p && StartsAt(s, pat, p) && NoneIn(s, pat, from, p)
    ensures Find(s, pat, from) == Some(p)
  {
  }

  lemma FindNone(s: string, pat: string, from: nat)
    requires forall j: nat :: from <= j ==> !StartsAt(s, pat, j)
    ensures Find(s, pat, from) == None
  {
  }

  lemma MidSlice(x: string, y: string, z: string, w: string)
    ensures (x + y + z + w)[|x|..|x| + |y|] == y
  {
  }

  lemma InfixSlice(x: string, y: string, z: string)
    ensures (x + y + z)[|x|..|x| + |y|] == y
  {
  }

  lemma HeadSlice(x: string, y: string, z: string, w: string)
    ensures (x + y + z + w)[..|x|] == x
  {
  }

  lemma Assoc(a: string, b: string, c: string)
    ensures a + (b + c) == a + b + c
  {
  }

  lemma TakeOfLonger(a: string, b: string, k: nat)
    requires k <= |a|
    ensures (a + b)[..k] == a[..k]
  {
  }

  lemma TailSlice(x: string, y: string)
    ensures (x + y)[|x|..] == y
  {
  }

  /** A pattern absent from `tail` is not found from where `tail` begins. */
  lemma FindNoneInTail(front: string, tail: string, pat: string)
    requires Absent(tail, pat)
    ensures Find(front + tail, pat, |front|) == None
  {
    forall j: nat | |front| <= j ensures !StartsAt(front + tail, pat, j) {
      StartsAtShift(front, tail, pat, j - |front|);
    }
  }

  /** From the start of `mid`, the first occurrence of an unbordered pattern
      absent from `mid` is the one right after `mid`. */
  lemma FindAfterMid(front: string, mid: string, pat: string, post: string)
    requires |pat| > 0 && Unbordered(pat) && Absent(mid, pat)
    ensures Find(front + mid + pat + post, pat, |front|) == Some(|front| + |mid|)
  {
    var s := front + mid + pat + post;
    var back := mid + pat + post;
    assert s == front + back;
    FirstIn(mid, pat, post);
    StartsAtShift(front, back, pat, |mid|);
    forall j: nat | |front| <= j < |front| + |mid| ensures !StartsAt(s, pat, j) {
      StartsAtShift(front, back, pat, j - |front|);
    }
  }

  /** Starting the search later, but not past the match, finds the same match. */
  lemma FindFromLater(s: string, pat: string, from: nat, later: nat)
    requires Find(s, pat, from).Some? && from <= later <= Find(s, pat, from).value
    ensures Find(s, pat, later) == Find(s, pat, from)
  {
    FindIs(s, pat, later, Find(s, pat, from).value);
  }

  /** A text that never holds a pattern's first character holds no occurrence of it. */
  lemma AbsentByHead(s: string, pat: string)
    requires |pat| > 0 && forall k :: 0 <= k < |s| ==> s[k] != pat[0]
    ensures Absent(s, pat)
  {
    forall j: nat ensures !StartsAt(s, pat, j) {
      if j + |pat| <= |s| {
        assert s[j..j + |pat|][0] == s[j];
      }
    }
  }

  /** `c` is none of the characters of `pat`. */
  predicate Avoids(c: char, pat: string) {
    forall k :: 0 <= k < |pat| ==> pat[k] != c
  }

  /** An occurrence that starts in `x` lies inside `x` unless it covers the last
      character of `x`. */
  lemma NoneBefore(x: string, y: string, pat: string)
    requires Absent(x, pat) && (x == [] || Avoids(x[|x| - 1], pat))
    ensures NoneIn(x + y, pat, 0, |x|)
  {
    var s := x + y;
    forall j: nat | j < |x| ensures !StartsAt(s, pat, j) {
      if j + |pat| <= |s| {
        if j + |pat| <= |x| {
          assert s[j..j + |pat|] == x[j..j + |pat|];
          assert !StartsAt(x, pat, j);
        } else {
          assert s[j..j + |pat|][|x| - 1 - j] == x[|x| - 1];
        }
      }
    }
  }

  /** Joining two texts that lack a pattern makes no occurrence across the seam
      when a character at the seam is foreign to the pattern. */
  lemma AbsentJoin(x: string, y: string, pat: string)
    requires Absent(x, pat) && Absent(y, pat)
    requires x == [] || y == [] || Avoids(x[|x| - 1], pat) || Avoids(y[0], pat)
    ensures Absent(x + y, pat)
  {
    var s := x + y;
    forall j: nat ensures !StartsAt(s, pat, j) {
      if j >= |x| {
        StartsAtShift(x, y, pat, j - |x|);
      } else if j + |pat| <= |s| {
        if j + |pat| <= |x| {
          assert s[j..j + |pat|] == x[j..j + |pat|];
          assert !StartsAt(x, pat, j);
        } else if y != [] && Avoids(y[0], pat) {
          assert s[j..j + |pat|][|x| - j] == y[0];
        } else if x != [] && Avoids(x[|x| - 1], pat) {
          assert s[j..j + |pat|][|x| - 1 - j] == x[|x| - 1];
        } else {
          assert false;
        }
      }
    }
  }

  /** A text shorter than the pattern cannot hold it. */
  lemma AbsentShort(x: string, pat: string)
    requires |x| < |pat|
    ensures Absent(x, pat)
  {
  }

  /** Prepending text that never holds the pattern's first character adds no
      occurrence. */
  lemma AbsentAfterHeadFree(x: string, y: string, pat: string)
    requires |pat| > 0 && (forall k :: 0 <= k < |x| ==> x[k] != pat[0]) && Absent(y, pat)
    ensures Absent(x + y, pat)
  {
    forall j: nat ensures !StartsAt(x + y, pat, j) {
      if j < |x| {
        if j + |pat| <= |x + y| {
          assert (x + y)[j..j + |pat|][0] == x[j];
        }
      } else {
        StartsAtShift(x, y, pat, j - |x|);
      }
    }
  }

  /** The end of the maximal run of characters satisfying `keep` from index i:
      what a greedy `\s*` or `\d+` consumes. */
  function Span(s: string, i: nat, keep: char -> bool): (r: nat)
    requires i <= |s|
    decreases |s| - i
    ensures i <= r <= |s|
    ensures forall k :: i <= k < r ==> keep(s[k])
    ensures r == |s| || !keep(s[r])
  {
    if i < |s| && keep(s[i]) then Span(s, i + 1, keep) else i
  }

  /** The ensures of Span determine its result. */
  lemma SpanIs(s: string, i: nat, keep: char -> bool, e: nat)
    requires i <= e <= |s|
    requires forall k :: i <= k < e ==> keep(s[k])
    requires e == |s| || !keep(s[e])
    ensures Span(s, i, keep) == e
  {
  }

  /** Appending text that starts outside `keep` does not move the end of a run. */
  lemma SpanExtends(a: string, t: string, i: nat, keep: char -> bool)
    requires i <= |a|
    requires t == [] || !keep(t[0])
    ensures Span(a + t, i, keep) == Span(a, i, keep)
  {
    var e := Span(a, i, keep);
    var s := a + t;
    forall k | i <= k < e ensures keep(s[k]) {
      assert s[k] == a[k];
    }
    if e < |a| {
      assert s[e] == a[e];
    } else if t != [] {
      assert s[e] == t[0];
    }
    SpanIs(s, i, keep, e);
  }

  function SkipSpaces(s: string, i: nat): (r: nat)
    requires i <= |s|
    ensures i <= r <= |s| && AllSpace(s[i..r]) && (r == |s| || !IsSpace(s[r]))
  {
    var r := Span(s, i, IsSpace);
    assert forall k :: 0 <= k < r - i ==> s[i..r][k] == s[i + k];
    r
  }

  /** A run of `keep` characters between `front` and a `rest` that does not start
      with one is exactly what Span crosses. */
  lemma SpanOver(front: string, run: string, rest: string, keep: char -> bool)
    requires forall k :: 0 <= k < |run| ==> keep(run[k])
    requires rest == [] || !keep(rest[0])
    ensures Span(front + run + rest, |front|, keep) == |front| + |run|
  {
    var s := front + run + rest;
    forall k | |front| <= k < |front| + |run| ensures keep(s[k]) {
      assert s[k] == run[k - |front|];
    }
    assert |front| + |run| < |s| ==> s[|front| + |run|] == rest[0];
    SpanIs(s, |front|, keep, |front| + |run|);
  }

  /** A piece of a run of white space is white space. */
  lemma AllSpaceWithin(s: string, lo: nat, mid: nat, hi: nat)
    requires lo <= mid <= hi <= |s| && AllSpace(s[lo..hi])
    ensures AllSpace(s[lo..mid])
  {
    forall k | 0 <= k < mid - lo ensures IsSpace(s[lo..mid][k]) {
      assert s[lo..mid][k] == s[lo..hi][k];
    }
  }

  /** White space skipped from i stops at the first character that is not one. */
  lemma SkipStopsAt(s: string, i: nat, k: nat)
    requires i <= k < |s| && !IsSpace(s[k])
    ensures SkipSpaces(s, i) <= k
  {
  }

  /** Trimming after skipping the leading white space is trimming the whole. */
  lemma TrimSkipped(s: string, i: nat, hi: nat)
    requires i <= hi <= |s| && SkipSpaces(s, i) <= hi
    ensures Trim(s[SkipSpaces(s, i)..hi]) == Trim(s[i..hi])
  {
    var e := SkipSpaces(s, i);
    assert s[i..hi] == s[i..e] + s[e..hi];
    TrimAfterSpaces(s[i..e], s[e..hi]);
  }

  lemma TrimSkippedRest(s: string, i: nat)
    requires i <= |s|
    ensures Trim(s[SkipSpaces(s, i)..]) == Trim(s[i..])
  {
    var e := SkipSpaces(s, i);
    assert s[i..] == s[i..e] + s[e..];
    TrimAfterSpaces(s[i..e], s[e..]);
  }

  function SkipDigits(s: string, i: nat): (r: nat)
    requires i <= |s|
    ensures i <= r <= |s| && AllDigits(s[i..r]) && (r == |s| || !IsDigit(s[r]))
  {
    var r := Span(s, i, IsDigit);
    assert forall k :: 0 <= k < r - i ==> s[i..r][k] == s[i + k];
    r
  }

  /** The last index k in [lo, hi) with `pick(s[k])`. */
  function LastWhere(s: string, lo: nat, hi: nat, pick: char -> bool): (r: Option<nat>)
    requires lo <= hi <= |s|
    decreases hi - lo
    ensures r.Some? ==> lo <= r.value < hi && pick(s[r.value])
    ensures r.Some? ==> forall k :: r.value < k < hi ==> !pick(s[k])
    ensures r.None? ==> forall k :: lo <= k < hi ==> !pick(s[k])
  {
    if hi == lo then None
    else if pick(s[hi - 1]) then Some(hi - 1)
    else LastWhere(s, lo, hi - 1, pick)
  }

  // ---------------------------------------------------------------- trim

  /** The start of the run of `keep` characters that ends at `hi`, not going
      below `lo`. */
  function SpanBack(s: string, lo: nat, hi: nat, keep: char -> bool): (r: nat)
    requires lo <= hi <= |s|
    decreases hi - lo
    ensures lo <= r <= hi
    ensures forall k :: r <= k < hi ==> keep(s[k])
    ensures r == lo || !keep(s[r - 1])
  {
    if lo < hi && keep(s[hi - 1]) then SpanBack(s, lo, hi - 1, keep) else hi
  }

  /** The ensures of SpanBack determine its result. */
  lemma SpanBackIs(s: string, lo: nat, hi: nat, keep: char -> bool, b: nat)
    requires lo <= b <= hi <= |s|
    requires forall k :: b <= k < hi ==> keep(s[k])
    requires b == lo || !keep(s[b - 1])
    ensures SpanBack(s, lo, hi, keep) == b
  {
  }

  /** JavaScript's `String.prototype.trim`: the text between the leading and the
      trailing white space. */
  function Trim(s: string): (r: string)
    ensures |r| <= |s|
    ensures r == [] || (!IsSpace(r[0]) && !IsSpace(r[|r| - 1]))
  {
    var a := Span(s, 0, IsSpace);
    s[a..SpanBack(s, a, |s|, IsSpace)]
  }

  /** What Trim keeps is the piece of its input between the leading and the
      trailing white space. */
  lemma TrimIsInfix(s: string)
    ensures var a := SkipSpaces(s, 0);
      && a + |Trim(s)| <= |s| && s[a..a + |Trim(s)|] == Trim(s)
      && AllSpace(s[..a]) && AllSpace(s[a + |Trim(s)|..])
  {
    var a := Span(s, 0, IsSpace);
    var b := SpanBack(s, a, |s|, IsSpace);
    assert forall k :: 0 <= k < b - a ==> s[a..b][k] == s[a + k];
    assert forall k :: 0 <= k < a ==> s[..a][k] == s[k];
    assert forall k :: 0 <= k < |s| - b ==> s[b..][k] == s[b + k];
  }

  /** Trim is characterised by its result alone: any decomposition of `s` into
      white space, a core that neither starts nor ends with white space, and white
      space again, yields that core. */
  lemma TrimUnique(w1: string, core: string, w2: string)
    requires AllSpace(w1) && AllSpace(w2)
    requires core == [] || (!IsSpace(core[0]) && !IsSpace(core[|core| - 1]))
    ensures Trim(w1 + core + w2) == core
  {
    var s := w1 + core + w2;
    if core == [] {
      assert forall k :: 0 <= k < |s| ==> IsSpace(s[k]) by {
        forall k | 0 <= k < |s| ensures IsSpace(s[k]) {
          if k < |w1| { assert s[k] == w1[k]; } else { assert s[k] == w2[k - |w1|]; }
        }
      }
      SpanIs(s, 0, IsSpace, |s|);
    } else {
      var a := |w1|;
      var b := |w1| + |core|;
      assert forall k :: 0 <= k < a ==> s[k] == w1[k];
      assert forall k :: b <= k < |s| ==> s[k] == w2[k - b];
      assert s[a] == core[0] && s[b - 1] == core[|core| - 1];
      SpanIs(s, 0, IsSpace, a);
      SpanBackIs(s, a, |s|, IsSpace, b);
      assert s[a..b] == core;
    }
  }

  /** White space alone trims to the empty string. */
  lemma TrimOfSpaces(w: string)
    requires AllSpace(w)
    ensures Trim(w) == []
  {
    SpanIs(w, 0, IsSpace, |w|);
  }

  lemma TrimIdempotent(s: string)
    ensures Trim(Trim(s)) == Trim(s)
  {
    var r := Trim(s);
    assert [] + r + [] == r;
    TrimUnique([], r, []);
  }

  /** `s` split around its trimmed core. */
  lemma TrimSplit(s: string)
    ensures exists w1, w2 :: AllSpace(w1) && AllSpace(w2) && s == w1 + Trim(s) + w2
  {
    TrimIsInfix(s);
    var a := SkipSpaces(s, 0);
    var b := a + |Trim(s)|;
    assert s == s[..a] + s[a..b] + s[b..];
  }

  /** Leading white space never changes the result of Trim. */
  lemma TrimAfterSpaces(w: string, t: string)
    requires AllSpace(w)
    ensures Trim(w + t) == Trim(t)
  {
    TrimSplit(t);
    var w1, w2 :| AllSpace(w1) && AllSpace(w2) && t == w1 + Trim(t) + w2;
    AllSpaceAppend(w, w1);
    Regroup(w, w1, Trim(t), w2);
    TrimUnique(w + w1, Trim(t), w2);
  }

  /** Trailing white space never changes the result of Trim. */
  lemma TrimBeforeSpaces(t: string, w: string)
    requires AllSpace(w)
    ensures Trim(t + w) == Trim(t)
  {
    TrimSplit(t);
    var w1, w2 :| AllSpace(w1) && AllSpace(w2) && t == w1 + Trim(t) + w2;
    AllSpaceAppend(w2, w);
    Regroup(w1, Trim(t), w2, w);
    TrimUnique(w1, Trim(t), w2 + w);
  }

  lemma Regroup(a: string, b: string, c: string, d: string)
    ensures a + (b + c + d) == (a + b) + c + d
    ensures (a + b + c) + d == a + b + (c + d)
  {
  }

  lemma AllSpaceAppend(x: string, y: string)
    requires AllSpace(x) && AllSpace(y)
    ensures AllSpace(x + y)
  {
    assert forall k :: 0 <= k < |x| + |y| ==> (x + y)[k] == if k < |x| then x[k] else y[k - |x|];
  }

  // ------------------------------------------------------- decimal digits

  function DigitChar(d: nat): (c: char)
    requires d < 10
    ensures IsDigit(c)
  {
    ['0', '1', '2', '3', '4', '5', '6', '7', '8', '9'][d]
  }

  function DigitValue(c: char): (d: nat)
    requires IsDigit(c)
    ensures d < 10
  {
    (c as int) - ('0' as int)
  }

  /** `parseInt` applied to a string of decimal digits. */
  function DigitsValue(ds: string): nat
    requires AllDigits(ds)
  {
    if ds == [] then 0 else DigitsValue(ds[..|ds| - 1]) * 10 + DigitValue(ds[|ds| - 1])
  }

  /** The decimal text of a non-negative integer, as a template literal prints it. */
  function Decimal(n: nat): (r: string)
    ensures r != [] && AllDigits(r)
  {
    if n < 10 then [DigitChar(n)] else Decimal(n / 10) + [DigitChar(n % 10)]
  }

  /** Reading back a printed number gives the number. */
  lemma {:induction false} DecimalRoundTrip(n: nat)
    ensures DigitsValue(Decimal(n)) == n
  {
    var r := Decimal(n);
    if n < 10 {
      assert r[..0] == [];
    } else {
      assert r[..|r| - 1] == Decimal(n / 10);
      DecimalRoundTrip(n / 10);
    }
  }

  // ------------------------------------------- occurrences in concatenations

  /** An occurrence inside a prefix of `s` is an occurrence in `s`. */
  lemma StartsAtPrefix(s: string, t: string, pat: string, i: nat)
    requires |t| <= |s| && s[..|t|] == t && i + |pat| <= |t|
    ensures StartsAt(s, pat, i) == StartsAt(t, pat, i)
  {
    forall k | i <= k < i + |pat| ensures s[k] == t[k] {
      assert s[..|t|][k] == s[k];
    }
    assert s[i..i + |pat|] == t[i..i + |pat|];
  }

  /** Occurrences in `b` are the occurrences in `a + b`, shifted by |a|. */
  lemma StartsAtShift(a: string, b: string, pat: string, i: nat)
    ensures StartsAt(a + b, pat, |a| + i) == StartsAt(b, pat, i)
  {
    if i + |pat| <= |b| {
      assert (a + b)[|a| + i..|a| + i + |pat|] == b[i..i + |pat|];
    }
  }

  /** Text appended after an occurrence does not change it, nor the absence of
      earlier ones. */
  lemma FirstKept(s: string, t: string, pat: string, i: nat)
    requires StartsAt(s, pat, i) && NoneIn(s, pat, 0, i)
    ensures StartsAt(s + t, pat, i) && NoneIn(s + t, pat, 0, i)
  {
    assert (s + t)[..|s|] == s;
    forall j: nat | j <= i && j + |pat| <= |s|
      ensures StartsAt(s + t, pat, j) == StartsAt(s, pat, j)
    {
      assert (s + t)[j..j + |pat|] == s[j..j + |pat|];
    }
  }

  /** The first occurrence of an unbordered `pat` in `a + pat + rest` is the one
      after `a`, when `a` does not hold it. */
  lemma FirstIn(a: string, pat: string, rest: string)
    requires |pat| > 0 && Unbordered(pat) && Absent(a, pat)
    ensures StartsAt(a + pat + rest, pat, |a|) && NoneIn(a + pat + rest, pat, 0, |a|)
  {
    var s := a + pat + rest;
    assert s[..|a| + |pat|] == a + pat;
    FirstAfter(s, a, pat);
  }

  /** When `pat` does not occur in `a` and cannot overlap itself, its first
      occurrence in any text that starts with `a + pat` is right after `a`. */
  lemma FirstAfter(s: string, a: string, pat: string)
    requires |pat| > 0 && Unbordered(pat) && Absent(a, pat)
    requires |a| + |pat| <= |s| && s[..|a| + |pat|] == a + pat
    ensures StartsAt(s, pat, |a|) && NoneIn(s, pat, 0, |a|)
  {
    assert s[|a|..|a| + |pat|] == (a + pat)[|a|..];
    forall j: nat | j < |a| ensures !StartsAt(s, pat, j) {
      if j + |pat| <= |a| {
        assert s[..|a|] == a;
        StartsAtPrefix(s, a, pat, j);
      } else {
        NoStraddle(s, a, pat, j);
      }
    }
  }

  /** An unbordered pattern that occurs right after `a` has no occurrence that
      starts inside `a` and runs into it. */
  lemma NoStraddle(s: string, a: string, pat: string, j: nat)
    requires Unbordered(pat)
    requires |a| + |pat| <= |s| && s[..|a| + |pat|] == a + pat
    requires j < |a| < j + |pat|
    ensures !StartsAt(s, pat, j)
  {
    var d := |a| - j;
    assert s[|a|..|a| + |pat|] == (a + pat)[|a|..];
    assert pat[d..] != pat[..|pat| - d];
    var k :| 0 <= k < |pat| - d && pat[d..][k] != pat[..|pat| - d][k];
    assert s[|a| + k] == (a + pat)[|a| + k] == pat[k];
    if j + |pat| <= |s| {
      assert s[j..j + |pat|][d + k] == s[|a| + k];
    }
  }
}
