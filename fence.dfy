/** The clean-up applied to the specification text before it is written: one
    replace that drops the first opening code fence found at the start of a
    line, one that drops the first closing fence found before the end of a line,
    and `trim`. Both expressions carry the `i` and `m` flags and no `g` flag. */
module Fence {
  import opened Strings

  /** A code fence: three backticks. */
  const Backticks: string := "```"
  /** The only language tag the opening expression accepts, in any letter case. */
  const MarkdownTag: string := "markdown"

  /** A multiline `^` matches at the start of the text and after a line
      terminator. */
  predicate AtLineStart(s: string, p: nat) {
    p == 0 || (p <= |s| && IsLineTerminator(s[p - 1]))
  }

  /** The `[\r\n]` class. */
  predicate IsCrLf(c: char) {
    c == '\r' || c == '\n'
  }

  /** Letter case folding of a regular expression with the `i` flag and without
      the `u` flag, as far as it concerns a pattern of ASCII letters: only ASCII
      letters fold onto ASCII letters. */
  function LowerAscii(c: char): (r: char)
    ensures 'A' <= c <= 'Z' ==> r as int == c as int + 32
    ensures !('A' <= c <= 'Z') ==> r == c
  {
    if 'A' <= c <= 'Z' then (c as int + 32) as char else c
  }

  /** The lower-case `pat` occurs at i, ignoring letter case. */
  predicate StartsAtIgnoreCase(s: string, pat: string, i: nat) {
    i + |pat| <= |s| && forall k :: 0 <= k < |pat| ==> LowerAscii(s[i + k]) == pat[k]
  }

  /** A tag that `(markdown)?` with the `i` flag consumes. */
  predicate IsMarkdownTag(tag: string) {
    |tag| == |MarkdownTag| && StartsAtIgnoreCase(tag, MarkdownTag, 0)
  }

  // ----------------------------------------------------------- the opener

  /** Where `(markdown)?` leaves off after a fence at p: past the tag when it is
      there, right after the fence otherwise. */
  function TagEnd(s: string, p: nat): (t: nat)
    requires p + |Backticks| <= |s|
    ensures t <= |s|
    ensures StartsAtIgnoreCase(s, MarkdownTag, p + |Backticks|) ==> t == p + |Backticks| + |MarkdownTag|
    ensures !StartsAtIgnoreCase(s, MarkdownTag, p + |Backticks|) ==> t == p + |Backticks|
  {
    if StartsAtIgnoreCase(s, MarkdownTag, p + |Backticks|) then p + |Backticks| + |MarkdownTag| else p + |Backticks|
  }

  /** Where `/^```(markdown)?\s*[\r\n]/im` ends when tried at p, if it matches
      there. The optional tag is taken when present; leaving it out cannot help,
      since its first letter is neither white space nor a line break. The greedy
      `\s*` then gives back characters until a `\r` or `\n` follows, so the match
      ends just after the last of them in the white-space run. */
  function OpenFenceEnd(s: string, p: nat): (r: Option<nat>)
    requires p <= |s|
    ensures r.Some? ==> AtLineStart(s, p) && StartsAt(s, Backticks, p)
    ensures r.Some? ==>
      var t := TagEnd(s, p);
      && t < r.value <= |s| && AllSpace(s[t..r.value]) && IsCrLf(s[r.value - 1])
      && forall k :: r.value <= k < SkipSpaces(s, t) ==> !IsCrLf(s[k])
    ensures r.Some? <==>
      && AtLineStart(s, p) && StartsAt(s, Backticks, p)
      && exists k :: TagEnd(s, p) <= k < SkipSpaces(s, TagEnd(s, p)) && IsCrLf(s[k])
    ensures AtLineStart(s, p) && StartsAt(s, Backticks, p) && TagEnd(s, p) < |s| && IsCrLf(s[TagEnd(s, p)])
            ==> r.Some?
  {
    if !(AtLineStart(s, p) && StartsAt(s, Backticks, p)) then None
    else
      var t := TagEnd(s, p);
      var w := SkipSpaces(s, t);
      match LastWhere(s, t, w, IsCrLf)
      case None => None
      case Some(k) =>
        AllSpaceWithin(s, t, k + 1, w);
        Some(k + 1)
  }

  predicate OpenFenceAt(s: string, p: nat) {
    p <= |s| && OpenFenceEnd(s, p).Some?
  }

  /** `text.replace(/^```(markdown)?\s*[\r\n]/im, '')`: the first match, if any,
      is cut out. */
  function StripOpenFence(s: string): (r: string)
    ensures |r| <= |s|
    ensures (forall p: nat :: p <= |s| ==> !OpenFenceAt(s, p)) ==> r == s
    ensures Absent(s, Backticks) ==> r == s
  {
    match Leftmost(s, 0, OpenFenceAt)
    case None => s
    case Some(p) => s[..p] + s[OpenFenceEnd(s, p).value..]
  }

  // ----------------------------------------------------------- the closer

  /** Where `/```\s*$/im` ends when tried at p, if it matches there: at the end of
      the text when the white space after the fence runs to it, otherwise just
      before the last line terminator of that white space (the match does not
      consume it). */
  function CloseFenceEnd(s: string, p: nat): (r: Option<nat>)
    requires p <= |s|
    ensures r.Some? ==> StartsAt(s, Backticks, p)
    ensures r.Some? ==>
      && p + |Backticks| <= r.value <= |s| && AllSpace(s[p + |Backticks|..r.value])
      && (r.value == |s| || IsLineTerminator(s[r.value]))
    ensures r.Some? <==>
      && StartsAt(s, Backticks, p)
      && (|| SkipSpaces(s, p + |Backticks|) == |s|
          || exists k :: p + |Backticks| <= k < SkipSpaces(s, p + |Backticks|) && IsLineTerminator(s[k]))
    ensures r.Some? ==> (r.value == |s| <==> SkipSpaces(s, p + |Backticks|) == |s|)
    ensures r.Some? && r.value < |s| ==>
      forall k :: r.value < k < SkipSpaces(s, p + |Backticks|) ==> !IsLineTerminator(s[k])
    ensures StartsAt(s, Backticks, p) && SkipSpaces(s, p + |Backticks|) == |s| ==> r == Some(|s|)
  {
    if !StartsAt(s, Backticks, p) then None
    else
      var w := SkipSpaces(s, p + |Backticks|);
      if w == |s| then Some(|s|)
      else
        match LastWhere(s, p + |Backticks|, w, IsLineTerminator)
        case None => None
        case Some(k) =>
          AllSpaceWithin(s, p + |Backticks|, k, w);
          Some(k)
  }

  predicate CloseFenceAt(s: string, p: nat) {
    p <= |s| && CloseFenceEnd(s, p).Some?
  }

  /** `text.replace(/```\s*$/im, '')`. */
  function StripCloseFence(s: string): (r: string)
    ensures |r| <= |s|
    ensures (forall p: nat :: p <= |s| ==> !CloseFenceAt(s, p)) ==> r == s
    ensures Absent(s, Backticks) ==> r == s
  {
    match Leftmost(s, 0, CloseFenceAt)
    case None => s
    case Some(p) => s[..p] + s[CloseFenceEnd(s, p).value..]
  }

  /** The text written to the output file: both replaces, then `trim`. */
  function CleanText(text: string): (r: string)
    ensures |r| <= |text|
    ensures r == [] || (!IsSpace(r[0]) && !IsSpace(r[|r| - 1]))
  {
    Trim(StripCloseFence(StripOpenFence(text)))
  }

  // --------------------------------------------------------------- lemmas

  /** Every character other than the backtick is foreign to a fence. */
  lemma AvoidsFence(c: char)
    requires c != '`'
    ensures Avoids(c, Backticks)
  {
  }

  /** A fenced block, with or without a `markdown` tag and after any number of
      lines free of fences, loses its two fence lines; the lines before it are
      kept. */
  lemma FencedBlockUnwrapped(lead: string, tag: string, body: string)
    requires lead == [] || IsLineTerminator(lead[|lead| - 1])
    requires tag == [] || IsMarkdownTag(tag)
    requires Absent(lead, Backticks) && Absent(body, Backticks)
    requires body != [] && !IsSpace(body[0])
    ensures CleanText(lead + Backticks + tag + "\n" + body + "\n" + Backticks) == Trim(lead + body)
  {
    var head := lead + Backticks + tag + "\n";
    var closing := "\n" + Backticks;
    var rest := body + closing;
    var x := lead + body + "\n";
    Assoc(head, body, closing);
    Assoc(head + body, "\n", Backticks);
    OpenerStripped(lead, tag, rest);
    Assoc(lead, body, closing);
    Assoc(lead + body, "\n", Backticks);
    CloserAfterBody(lead, body);
    TrimBeforeSpaces(lead + body, "\n");
  }

  /** The fence that ends a block whose lines hold no other fence is the one the
      closing expression removes. */
  lemma CloserAfterBody(lead: string, body: string)
    requires lead == [] || IsLineTerminator(lead[|lead| - 1])
    requires Absent(lead, Backticks) && Absent(body, Backticks)
    ensures StripCloseFence(lead + body + "\n" + Backticks) == lead + body + "\n"
  {
    var x := lead + body + "\n";
    assert x[|x| - 1] == '\n';
    AvoidsFence('\n');
    if lead != [] {
      AvoidsFence(lead[|lead| - 1]);
    }
    AbsentJoin(lead, body, Backticks);
    AbsentShort("\n", Backticks);
    AbsentJoin(lead + body, "\n", Backticks);
    CloserStripped(x);
  }

  /** The opener at the start of a line, followed by text that does not start
      with white space, is the first match and is cut out with its line break. */
  lemma OpenerStripped(lead: string, tag: string, rest: string)
    requires lead == [] || IsLineTerminator(lead[|lead| - 1])
    requires tag == [] || IsMarkdownTag(tag)
    requires Absent(lead, Backticks)
    requires rest != [] && !IsSpace(rest[0])
    ensures StripOpenFence(lead + Backticks + tag + "\n" + rest) == lead + rest
  {
    var a := lead + Backticks;
    var b := a + tag;
    var c := b + "\n";
    var s := c + rest;
    var p := |lead|;
    var t := |b|;
    if lead != [] {
      AvoidsFence(lead[|lead| - 1]);
    }
    NoneBefore(lead, Backticks, Backticks);
    StartsAtShift(lead, Backticks, Backticks, 0);
    assert Backticks[..3] == Backticks;
    FirstKept(a, tag, Backticks, p);
    FirstKept(b, "\n", Backticks, p);
    FirstKept(c, rest, Backticks, p);
    assert AtLineStart(s, p) by {
      if lead != [] { assert s[p - 1] == lead[p - 1]; }
    }
    MidSlice(a, tag, "\n", rest);
    assert s[t] == '\n' && s[t + 1] == rest[0];
    TagEndIs(s, p, tag);
    OpenFenceEndAt(s, p, t);
    LeftmostIs(s, 0, OpenFenceAt, p);
    TakeOfLonger(c, rest, p);
    TakeOfLonger(b, "\n", p);
    TakeOfLonger(a, tag, p);
    TakeOfLonger(lead, Backticks, p);
    TailSlice(c, rest);
  }

  /** The optional tag ends where the text shows it ending. */
  lemma TagEndIs(s: string, p: nat, tag: string)
    requires tag == [] || IsMarkdownTag(tag)
    requires p + |Backticks| + |tag| < |s| && s[p + |Backticks|..p + |Backticks| + |tag|] == tag
    requires s[p + |Backticks| + |tag|] == '\n'
    ensures TagEnd(s, p) == p + |Backticks| + |tag|
  {
    if tag == [] {
      assert LowerAscii(s[p + 3]) != MarkdownTag[0];
    } else {
      forall k | 0 <= k < |MarkdownTag| ensures LowerAscii(s[p + 3 + k]) == MarkdownTag[k] {
        assert s[p + 3 + k] == tag[k];
      }
    }
  }

  /** A line break right after the tag, then a character that is not white space:
      the opener ends after that line break. */
  lemma OpenFenceEndAt(s: string, p: nat, t: nat)
    requires p <= |s| && AtLineStart(s, p) && StartsAt(s, Backticks, p)
    requires TagEnd(s, p) == t && t + 1 < |s| && s[t] == '\n' && !IsSpace(s[t + 1])
    ensures OpenFenceEnd(s, p) == Some(t + 1)
  {
    SpanIs(s, t, IsSpace, t + 1);
    assert LastWhere(s, t, t + 1, IsCrLf) == Some(t);
  }

  /** A fence at the very end, after text that holds none and does not end in a
      backtick, is the first match of the closing expression and is cut out. */
  lemma CloserStripped(x: string)
    requires Absent(x, Backticks) && x != [] && Avoids(x[|x| - 1], Backticks)
    ensures StripCloseFence(x + Backticks) == x
  {
    var s := x + Backticks;
    NoneBefore(x, Backticks, Backticks);
    StartsAtShift(x, Backticks, Backticks, 0);
    assert Backticks[..3] == Backticks;
    SpanIs(s, |s|, IsSpace, |s|);
    assert CloseFenceEnd(s, |x|) == Some(|s|);
    LeftmostIs(s, 0, CloseFenceAt, |x|);
    assert s[..|x|] == x;
  }

  /** Any other language tag keeps the opening line: after the fence and an
      optional `markdown`, the opener needs white space that holds a line break.
      The closing expression, which looks at every fence, still finds the last
      one and removes it. */
  lemma OtherTagKept(lang: string, body: string)
    requires lang != [] && !IsMarkdownTag(lang)
    requires forall k :: 0 <= k < |lang| ==> !IsSpace(lang[k]) && lang[k] != '`'
    requires Absent(body, Backticks)
    ensures CleanText(Backticks + lang + "\n" + body + "\n" + Backticks) == Trim(Backticks + lang + "\n" + body)
  {
    var x := Backticks + lang + "\n" + body + "\n";
    var s := x + Backticks;
    FencesAtEnds(lang, body);
    assert s == Backticks + lang + "\n" + (body + "\n" + Backticks);
    OtherTagEnd(lang, body + "\n" + Backticks);
    OpenerNeedsBreak(s, 0);
    assert s[3] == lang[0];
    CloserNeedsSpace(s, 0);
    StartsAtShift(x, Backticks, Backticks, 0);
    assert Backticks[..3] == Backticks;
    FenceAtEnd(s, |x|);
    forall p: nat | p <= |s| ensures !OpenFenceAt(s, p) {
    }
    LeftmostNone(s, 0, OpenFenceAt);
    LeftmostIs(s, 0, CloseFenceAt, |x|);
    TakeOfLonger(x, Backticks, |x|);
    assert StripOpenFence(s) == s;
    assert StripCloseFence(s) == s[..|x|] + s[|s|..];
    assert StripCloseFence(s) == x;
    TrimBeforeSpaces(Backticks + lang + "\n" + body, "\n");
  }

  /** After a fence and a tag other than `markdown`, what `(markdown)?` leaves
      is a character that is not white space. */
  lemma OtherTagEnd(lang: string, rest: string)
    requires lang != [] && !IsMarkdownTag(lang)
    requires forall k :: 0 <= k < |lang| ==> !IsSpace(lang[k])
    ensures var s := Backticks + lang + "\n" + rest;
      TagEnd(s, 0) < |s| && !IsSpace(s[TagEnd(s, 0)])
  {
    var s := Backticks + lang + "\n" + rest;
    assert forall k :: 0 <= k < |lang| ==> s[3 + k] == lang[k];
    assert s[3 + |lang|] == '\n';
    assert |lang| < 8 ==> !StartsAtIgnoreCase(s, MarkdownTag, 3) by {
      if |lang| < 8 {
        assert LowerAscii(s[3 + |lang|]) != MarkdownTag[|lang|];
      }
    }
    assert |lang| == 8 ==> !StartsAtIgnoreCase(s, MarkdownTag, 3) by {
      if |lang| == 8 && StartsAtIgnoreCase(s, MarkdownTag, 3) {
        forall k | 0 <= k < |MarkdownTag| ensures LowerAscii(lang[k]) == MarkdownTag[k] {
          assert s[3 + k] == lang[k];
        }
        assert IsMarkdownTag(lang);
      }
    }
    if StartsAtIgnoreCase(s, MarkdownTag, 3) {
      assert s[11] == lang[8];
    } else {
      assert s[3] == lang[0];
    }
  }

  /** The opener needs white space after the fence and the optional tag. */
  lemma OpenerNeedsBreak(s: string, p: nat)
    requires StartsAt(s, Backticks, p) && TagEnd(s, p) < |s| && !IsSpace(s[TagEnd(s, p)])
    ensures OpenFenceEnd(s, p) == None
  {
    SpanIs(s, TagEnd(s, p), IsSpace, TagEnd(s, p));
  }

  /** The closer needs white space, or the end of the text, right after the fence. */
  lemma CloserNeedsSpace(s: string, p: nat)
    requires StartsAt(s, Backticks, p) && p + |Backticks| < |s| && !IsSpace(s[p + |Backticks|])
    ensures CloseFenceEnd(s, p) == None
  {
    SpanIs(s, p + |Backticks|, IsSpace, p + |Backticks|);
  }

  /** Blanks between the fence and the line break do not stop the opener, and
      the line break goes with it. */
  lemma OpenerSkipsTrailingBlanks(ws: string, rest: string)
    requires forall k :: 0 <= k < |ws| ==> IsSpace(ws[k]) && !IsCrLf(ws[k])
    requires rest != [] && !IsSpace(rest[0])
    ensures StripOpenFence(Backticks + ws + "\n" + rest) == rest
  {
    var run := ws + "\n";
    var s := Backticks + run + rest;
    assert s == Backticks + ws + "\n" + rest;
    var b := 3 + |ws|;
    assert forall k :: 0 <= k < |run| ==> run[k] == s[3 + k];
    assert s[b] == '\n';
    assert s[..3] == Backticks;
    assert LowerAscii(s[3]) != MarkdownTag[0];
    assert TagEnd(s, 0) == 3;
    SpanOver(Backticks, run, rest, IsSpace);
    assert SkipSpaces(s, 3) == b + 1;
    assert forall k :: 3 <= k < b ==> !IsCrLf(s[k]);
    assert OpenFenceEnd(s, 0) == Some(b + 1);
    LeftmostIs(s, 0, OpenFenceAt, 0);
    assert s[b + 1..] == rest;
  }

  /** The `m` flag lets the closer match before any line break: a fence that
      ends its line, in front of text that does not start with white space, is
      cut out and its line break kept. */
  lemma CloserInMiddle(lead: string, rest: string)
    requires Absent(lead, Backticks) && (lead == [] || Avoids(lead[|lead| - 1], Backticks))
    requires rest != [] && !IsSpace(rest[0])
    ensures StripCloseFence(lead + Backticks + "\n" + rest) == lead + "\n" + rest
  {
    var tail := Backticks + "\n" + rest;
    var s := lead + tail;
    var p := |lead|;
    assert s == lead + Backticks + "\n" + rest by {
      Regroup(lead, Backticks, "\n", rest);
      Assoc(Backticks, "\n", rest);
    }
    assert CloseFenceEnd(s, p) == Some(p + 3) by {
      assert tail[..3] == Backticks && tail[3] == '\n' && tail[4] == rest[0];
      StartsAtShift(lead, tail, Backticks, 0);
      assert s[p + 3] == '\n' && s[p + 4] == rest[0];
      CloserBeforeBreak(s, p);
    }
    assert Leftmost(s, 0, CloseFenceAt) == Some(p) by {
      NoneBefore(lead, tail, Backticks);
      LeftmostIs(s, 0, CloseFenceAt, p);
    }
    CutCloser(s, p);
    assert s[..p] == lead by { TakeOfLonger(lead, tail, p); }
    assert s[p + 3..] == "\n" + rest by {
      Assoc(Backticks, "\n", rest);
      TailSlice(Backticks, "\n" + rest);
      assert s[p + 3..] == tail[3..];
    }
    Assoc(lead, "\n", rest);
  }

  /** When the leftmost closer is at p and ends at e, the closer's replace cuts
      out exactly the characters between them. */
  lemma CutCloser(s: string, p: nat)
    requires Leftmost(s, 0, CloseFenceAt) == Some(p) && p <= |s|
    ensures CloseFenceEnd(s, p).Some?
    ensures StripCloseFence(s) == s[..p] + s[CloseFenceEnd(s, p).value..]
  {
  }

  /** A fence followed by one line break and then a character that is not white
      space is a closer that ends before the line break. */
  lemma CloserBeforeBreak(s: string, p: nat)
    requires StartsAt(s, Backticks, p) && p + |Backticks| + 1 < |s|
    requires s[p + |Backticks|] == '\n' && !IsSpace(s[p + |Backticks| + 1])
    ensures CloseFenceEnd(s, p) == Some(p + |Backticks|)
  {
    SpanIs(s, p + 3, IsSpace, p + 4);
    assert LastWhere(s, p + 3, p + 4, IsLineTerminator) == Some(p + 3);
  }

  /** In a block tagged with another language and followed by more text, the
      closer removes the block's own closing fence, not a later one. */
  lemma InnerBlockCloserRemoved(lang: string, body: string, rest: string)
    requires lang != [] && forall k :: 0 <= k < |lang| ==> !IsSpace(lang[k]) && lang[k] != '`'
    requires Absent(body, Backticks)
    requires rest != [] && !IsSpace(rest[0])
    ensures var x := Backticks + lang + "\n" + body + "\n";
            StripCloseFence(x + Backticks + "\n" + rest) == x + "\n" + rest
  {
    var x := Backticks + lang + "\n" + body + "\n";
    var y := x + Backticks;
    var s := y + "\n" + rest;
    var p := |x|;
    FencesAtEnds(lang, body);
    assert s[..|y|] == y;
    forall j: nat | 0 < j < p ensures !StartsAt(s, Backticks, j) {
      if j + 3 <= |s| {
        assert s[j..j + 3] == y[j..j + 3];
        assert !StartsAt(y, Backticks, j);
      }
    }
    assert s[3] == lang[0];
    CloserNeedsSpace(s, 0);
    assert s[p..p + 3] == Backticks;
    assert s[p + 3] == '\n' && s[p + 4] == rest[0];
    CloserBeforeBreak(s, p);
    LeftmostIs(s, 0, CloseFenceAt, p);
    assert s[..p] == x && s[p + 3..] == "\n" + rest;
  }

  /** A fence that ends the text is no opener, and is a closer. */
  lemma FenceAtEnd(s: string, p: nat)
    requires StartsAt(s, Backticks, p) && p + |Backticks| == |s|
    ensures OpenFenceEnd(s, p) == None && CloseFenceEnd(s, p) == Some(|s|)
  {
    SpanIs(s, |s|, IsSpace, |s|);
    assert TagEnd(s, p) == |s|;
  }

  /** In a fenced block whose tag and body hold no backtick run, the only fences
      are the first and the last. */
  lemma FencesAtEnds(lang: string, body: string)
    requires lang != [] && forall k :: 0 <= k < |lang| ==> lang[k] != '`'
    requires Absent(body, Backticks)
    ensures var x := Backticks + lang + "\n" + body + "\n";
      forall p: nat :: StartsAt(x + Backticks, Backticks, p) ==> p == 0 || p == |x|
  {
    var mid := lang + "\n" + body + "\n";
    var x := Backticks + lang + "\n" + body + "\n";
    var s := x + Backticks;
    assert s == Backticks + (mid + Backticks);
    AbsentByHead(lang, Backticks);
    AbsentShort("\n", Backticks);
    AvoidsFence('\n');
    AbsentJoin(lang, "\n", Backticks);
    AbsentJoin(lang + "\n", body, Backticks);
    AbsentJoin(lang + "\n" + body, "\n", Backticks);
    NoneBefore(mid, Backticks, Backticks);
    forall p: nat | 0 < p < 3 ensures !StartsAt(s, Backticks, p) {
      if p + 3 <= |s| {
        assert s[p..p + 3][3 - p] == s[3] == lang[0];
      }
    }
    forall p: nat | StartsAt(s, Backticks, p) ensures p == 0 || p == |x| {
      if 3 <= p < |x| {
        StartsAtShift(Backticks, mid + Backticks, Backticks, p - 3);
      }
    }
  }
}
