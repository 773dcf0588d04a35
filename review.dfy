/** The response splitter and the self-review parser of the design-spec step:
    the agent's raw text is split on a fixed heading with `split(separator, 2)`,
    and a rating and two free-text notes are pulled out of the review part by
    independent regular expressions: one for the rating, a lazy one with a
    greedy fallback for the first note, and one for the second note. Each
    regular expression is modelled as the leftmost position at which a
    per-position match predicate holds, and that predicate encodes what the
    backtracking matcher settles on. */
module Review {
  import opened Strings

  /** The heading that separates the specification from the self-review. */
  const Separator: string := "## 🤖 에이전트 자가 평가"

  const ScoreLabel: string := "점수:"
  const WellDoneLabel: string := "잘한 점:"
  const GapsLabel: string := "고려하지 못한 점:"
  /** The end of the "잘한 점" field: a line that starts a level-3 heading. */
  const SectionBreak: string := "\n###"
  /** What a non-empty review block yields for a note whose label is missing. */
  const MissingText: string := "평가 텍스트를 찾을 수 없음"

  /** The first two elements of `raw.split(Separator, 2)`; `review` is None when the
      array has a single element. */
  datatype Parts = Parts(spec: string, review: Option<string>)

  /** The self-review fields of the run's result record. */
  datatype SelfReview = SelfReview(rating: nat, wellDone: string, needsImprovement: string)

  /** The values the run starts with, kept when there is no review text. */
  const Defaults: SelfReview := SelfReview(0, "N/A", "N/A")

  lemma SeparatorUnbordered()
    ensures |Separator| == 15 && Unbordered(Separator)
  {
    forall d | 0 < d < |Separator| ensures Separator[d..] != Separator[..|Separator| - d] {
      if d == 1 {
        assert Separator[d..][1] != Separator[..|Separator| - d][1];
      } else {
        assert Separator[d..][0] != Separator[..|Separator| - d][0];
      }
    }
  }

  /** A label whose first character occurs nowhere else in it cannot overlap
      itself. */
  lemma HeadUnique(pat: string)
    requires |pat| > 0 && forall k :: 0 < k < |pat| ==> pat[k] != pat[0]
    ensures Unbordered(pat)
  {
    forall d | 0 < d < |pat| ensures pat[d..] != pat[..|pat| - d] {
      assert pat[d..][0] != pat[..|pat| - d][0];
    }
  }

  lemma ScoreLabelUnbordered() ensures Unbordered(ScoreLabel) { HeadUnique(ScoreLabel); }
  lemma WellDoneLabelUnbordered() ensures Unbordered(WellDoneLabel) { HeadUnique(WellDoneLabel); }
  lemma GapsLabelUnbordered() ensures Unbordered(GapsLabel) { HeadUnique(GapsLabel); }
  lemma SectionBreakUnbordered() ensures Unbordered(SectionBreak) { HeadUnique(SectionBreak); }

  // ------------------------------------------------------------ the split

  /** `raw.split(Separator, 2)`: the text before the first separator, and the text
      between the first and the second separator (or to the end of the text). */
  function SplitResponse(raw: string): (r: Parts)
    ensures r.review.None? <==> Absent(raw, Separator)
    ensures r.review.None? ==> r.spec == raw
    ensures r.review.Some? ==>
      |r.spec| + |Separator| <= |raw| && raw[..|r.spec|] == r.spec
      && StartsAt(raw, Separator, |r.spec|) && NoneIn(raw, Separator, 0, |r.spec|)
    ensures r.review.Some? ==>
      var b := |r.spec| + |Separator|;
      var e := b + |r.review.value|;
      e <= |raw| && raw[b..e] == r.review.value && NoneIn(raw, Separator, b, e)
      && (e == |raw| || StartsAt(raw, Separator, e))
  {
    match Find(raw, Separator, 0)
    case None => Parts(raw, None)
    case Some(i) =>
      var b := i + |Separator|;
      match Find(raw, Separator, b)
      case None => Parts(raw[..i], Some(raw[b..]))
      case Some(k) => Parts(raw[..i], Some(raw[b..k]))
  }

  /** A response that holds the separator exactly once is the specification, the
      separator and the review, in that order. */
  lemma SplitRejoins(raw: string)
    requires exists i: nat :: StartsAt(raw, Separator, i)
    requires forall i: nat, j: nat :: StartsAt(raw, Separator, i) && StartsAt(raw, Separator, j) ==> i == j
    ensures SplitResponse(raw).review.Some?
    ensures SplitResponse(raw).spec + Separator + SplitResponse(raw).review.value == raw
  {
    var r := SplitResponse(raw);
    var b := |r.spec| + |Separator|;
    var e: nat := b + |r.review.value|;
    assert e < |raw| ==> StartsAt(raw, Separator, e);
    assert e == |raw|;
    assert raw == raw[..|r.spec|] + raw[|r.spec|..b] + raw[b..];
  }

  /** Joining a specification and a review that do not contain the separator,
      with the separator between them, and splitting again gives them back;
      whatever follows a second separator is dropped. */
  lemma SplitInvertsJoin(spec: string, review: string, rest: Option<string>)
    requires Absent(spec, Separator) && Absent(review, Separator)
    ensures var raw := spec + Separator + review + (if rest.Some? then Separator + rest.value else []);
            SplitResponse(raw) == Parts(spec, Some(review))
  {
    var tail := if rest.Some? then Separator + rest.value else [];
    var front := spec + Separator;
    var raw := front + review + tail;
    var b := |front|;
    SeparatorUnbordered();
    Regroup(spec, Separator, review, tail);
    FirstIn(spec, Separator, review + tail);
    FindIs(raw, Separator, 0, |spec|);
    HeadSlice(spec, Separator, review, tail);
    if rest.Some? {
      Regroup(front, review, Separator, rest.value);
      FindAfterMid(front, review, Separator, rest.value);
      MidSlice(front, review, Separator, rest.value);
    } else {
      assert raw == front + review;
      FindNoneInTail(front, review, Separator);
      TailSlice(front, review);
    }
  }

  /** `specContent || rawResponse`: the text the cleaned specification is made
      from. An empty part before the separator is falsy, and the whole response
      is used instead. */
  function SpecSource(raw: string): (r: string)
    ensures r == raw <==> Absent(raw, Separator) || StartsAt(raw, Separator, 0)
    ensures r != raw ==> r != [] && |r| <= |raw| && raw[..|r|] == r && StartsAt(raw, Separator, |r|) && NoneIn(raw, Separator, 0, |r|)
  {
    var parts := SplitResponse(raw);
    if parts.spec != [] then
      assert !StartsAt(raw, Separator, 0);
      parts.spec
    else raw
  }

  /** With a non-empty specification before the separator, only that
      specification is kept, whatever follows a second separator. */
  lemma SpecSourceOfJoin(spec: string, review: string, rest: Option<string>)
    requires spec != [] && Absent(spec, Separator) && Absent(review, Separator)
    ensures var raw := spec + Separator + review + (if rest.Some? then Separator + rest.value else []);
            SpecSource(raw) == spec
  {
    SplitInvertsJoin(spec, review, rest);
  }

  /** A response that opens with the separator has an empty specification part,
      so the whole response, self-review included, becomes the specification. */
  lemma ReviewFirstKeepsAll(review: string)
    ensures SpecSource(Separator + review) == Separator + review
  {
    var raw := Separator + review;
    SeparatorUnbordered();
    assert raw[..|Separator|] == Separator;
    FindIs(raw, Separator, 0, 0);
  }

  // ------------------------------------------------------------ the rating

  /** `/점수:\s*(\d+)/` matches at p: the label, then (after the longest run of white
      space) a digit. Backtracking into `\s*` cannot help, since a digit is never
      white space. */
  predicate RatingMatchAt(s: string, p: nat) {
    StartsAt(s, ScoreLabel, p)
    && var d := SkipSpaces(s, p + |ScoreLabel|);
       d < |s| && IsDigit(s[d])
  }

  /** `parseInt` of the digits captured by the first match, or 0 without a match;
      the value is not clamped to the 1..10 range the prompt asks for. */
  function Rating(block: string): (r: nat)
    ensures (forall p: nat :: p <= |block| ==> !RatingMatchAt(block, p)) ==> r == 0
  {
    match Leftmost(block, 0, RatingMatchAt)
    case None => 0
    case Some(p) =>
      var d := SkipSpaces(block, p + |ScoreLabel|);
      DigitsValue(block[d..SkipDigits(block, d)])
  }

  /** The rating is the number written after the first score label that a
      number follows, whatever white space separates them and however large it
      is; labels before it without a number are passed over. */
  lemma RatingReadsFirstScore(pre: string, ws: string, n: nat, post: string)
    requires forall j: nat :: !RatingMatchAt(pre, j)
    requires AllSpace(ws)
    requires post == [] || !IsDigit(post[0])
    ensures Rating(pre + ScoreLabel + ws + Decimal(n) + post) == n
  {
    var digits := Decimal(n);
    var front := pre + ScoreLabel;
    var rest := ws + digits + post;
    var s := front + ws + digits + post;
    Regroup(front, ws, digits, post);
    assert s == pre + ScoreLabel + rest;
    assert s[..|pre| + |ScoreLabel|] == front;
    assert StartsAt(s, ScoreLabel, |pre|);
    forall j: nat | j < |pre| ensures !RatingMatchAt(s, j) {
      NoRatingMatchBefore(pre, rest, j);
    }
    assert digits[0] != ' ' && IsDigit(digits[0]);
    SpanOver(front, ws, digits + post, IsSpace);
    SpanOver(front + ws, digits, post, IsDigit);
    InfixSlice(front + ws, digits, post);
    RatingFromFirstLabel(s, |pre|);
    DecimalRoundTrip(n);
  }

  /** A text with no match keeps none when a score label and anything else are
      appended: a label in it is still followed by the same white space, and then
      by the label's first character, which is no digit. */
  lemma NoRatingMatchBefore(pre: string, rest: string, j: nat)
    requires forall i: nat :: !RatingMatchAt(pre, i)
    requires j < |pre|
    ensures !RatingMatchAt(pre + ScoreLabel + rest, j)
  {
    var s := pre + ScoreLabel + rest;
    var t := ScoreLabel + rest;
    Assoc(pre, ScoreLabel, rest);
    assert s == pre + t;
    assert t[0] == '점';
    if j + |ScoreLabel| > |pre| {
      ScoreLabelUnbordered();
      assert s[..|pre| + |ScoreLabel|] == pre + ScoreLabel;
      NoStraddle(s, pre, ScoreLabel, j);
    } else {
      assert s[j..j + |ScoreLabel|] == pre[j..j + |ScoreLabel|];
      assert !RatingMatchAt(pre, j);
      SpanExtends(pre, t, j + |ScoreLabel|, IsSpace);
      var d := SkipSpaces(pre, j + |ScoreLabel|);
      assert SkipSpaces(s, j + |ScoreLabel|) == d;
      if d < |pre| {
        assert s[d] == pre[d];
      } else {
        assert s[d] == t[0];
      }
    }
  }

  /** The first position at which the expression matches gives the value of the
      digit run after its label and white space. */
  lemma RatingFromFirstLabel(s: string, p: nat)
    requires p <= |s| && RatingMatchAt(s, p)
    requires forall j: nat :: j < p ==> !RatingMatchAt(s, j)
    ensures var d := SkipSpaces(s, p + |ScoreLabel|);
            Rating(s) == DigitsValue(s[d..SkipDigits(s, d)])
  {
    LeftmostIs(s, 0, RatingMatchAt, p);
  }

  /** A label with no number after it is passed over for a later one. */
  lemma LabelWithoutNumberSkipped()
    ensures Rating(ScoreLabel + " x " + ScoreLabel + " 7") == 7
  {
    var pre := ScoreLabel + " x ";
    NoNumberAfterLabel();
    assert Decimal(7) == "7";
    RatingReadsFirstScore(pre, " ", 7, []);
    assert pre + ScoreLabel + " " + Decimal(7) + [] == ScoreLabel + " x " + ScoreLabel + " 7";
  }

  lemma NoNumberAfterLabel()
    ensures forall j: nat :: !RatingMatchAt(ScoreLabel + " x ", j)
  {
    var pre := ScoreLabel + " x ";
    assert |pre| == 6 && pre[3] == ' ' && pre[4] == 'x';
    forall j: nat ensures !RatingMatchAt(pre, j) {
      if j == 0 {
        SpanIs(pre, 3, IsSpace, 4);
      } else if j + 3 <= |pre| {
        assert pre[j..j + 3][0] == pre[j];
      }
    }
  }

  /** The prompt asks for the label in bold (`**점수:** 8`); the closing `**`
      stands between the label and the number, so such a rating reads as 0. */
  lemma BoldScoreReadsZero(n: nat)
    ensures Rating("**" + ScoreLabel + "** " + Decimal(n)) == 0
  {
    var prefix := "**" + ScoreLabel + "** ";
    var s := prefix + Decimal(n);
    assert |prefix| == 8;
    forall k | 0 <= k < |s| && k != 2 ensures s[k] != '점' {
      if k < 8 {
        assert s[k] == prefix[k];
      } else {
        assert s[k] == Decimal(n)[k - 8];
      }
    }
    forall p: nat | p <= |s| ensures !RatingMatchAt(s, p) {
      if p + 3 <= |s| && p != 2 {
        assert s[p..p + 3][0] == s[p];
      }
      if p == 2 {
        assert s[5] == '*';
        SpanIs(s, 5, IsSpace, 5);
      }
    }
  }

  // ------------------------------------------------------- the "잘한 점" note

  /** `/잘한 점:\s*([\s\S]*?)\n###/` matches at p exactly when the label is there
      and a section break starts somewhere after it. */
  predicate WellDoneSectionAt(s: string, p: nat) {
    StartsAt(s, WellDoneLabel, p) && Find(s, SectionBreak, p + |WellDoneLabel|).Some?
  }

  /** The group the lazy expression captures at p: from the end of the white
      space after the label to the first section break; when every section break
      lies inside that white space, `\s*` gives back characters and the group is
      empty. */
  function WellDoneSection(s: string, p: nat): (r: string)
    requires WellDoneSectionAt(s, p)
  {
    var e := SkipSpaces(s, p + |WellDoneLabel|);
    match Find(s, SectionBreak, e)
    case Some(q) => s[e..q]
    case None => []
  }

  /** The "잘한 점" note: the lazy expression first, the greedy one when it fails,
      the fallback text when the label is missing. */
  function WellDone(block: string): (r: string)
    ensures Absent(block, WellDoneLabel) ==> r == MissingText
  {
    match Leftmost(block, 0, WellDoneSectionAt)
    case Some(p) => Trim(WellDoneSection(block, p))
    case None =>
      match Find(block, WellDoneLabel, 0)
      case Some(p) => Trim(block[SkipSpaces(block, p + |WellDoneLabel|)..])
      case None => MissingText
  }

  /** When the lazy expression matches first at p, the note is its trimmed group. */
  lemma WellDoneFromSection(s: string, p: nat)
    requires WellDoneSectionAt(s, p) && NoneIn(s, WellDoneLabel, 0, p)
    ensures WellDone(s) == Trim(WellDoneSection(s, p))
  {
    LeftmostIs(s, 0, WellDoneSectionAt, p);
  }

  /** When no section break follows the first label, at p, the note is the rest of
      the block after the label and its white space, trimmed. */
  lemma WellDoneFromRest(s: string, p: nat)
    requires StartsAt(s, WellDoneLabel, p) && NoneIn(s, WellDoneLabel, 0, p)
    requires Find(s, SectionBreak, p + |WellDoneLabel|) == None
    ensures WellDone(s) == Trim(s[SkipSpaces(s, p + |WellDoneLabel|)..])
  {
    forall j: nat | j <= |s| ensures !WellDoneSectionAt(s, j) {
      if StartsAt(s, WellDoneLabel, j) && j > p {
        FindNone(s, SectionBreak, j + |WellDoneLabel|);
      }
    }
    LeftmostNone(s, 0, WellDoneSectionAt);
    FindIs(s, WellDoneLabel, 0, p);
  }

  /** When a section break follows the first label and something other than
      white space lies between them, the note is what lies between, trimmed. */
  lemma WellDoneBeforeBreak(s: string, p: nat, q: nat, k: nat)
    requires StartsAt(s, WellDoneLabel, p) && NoneIn(s, WellDoneLabel, 0, p)
    requires Find(s, SectionBreak, p + |WellDoneLabel|) == Some(q)
    requires p + |WellDoneLabel| <= k < q && !IsSpace(s[k])
    ensures WellDone(s) == Trim(s[p + |WellDoneLabel|..q])
  {
    var a := p + |WellDoneLabel|;
    WellDoneFromSection(s, p);
    SkipStopsAt(s, a, k);
    FindFromLater(s, SectionBreak, a, SkipSpaces(s, a));
    TrimSkipped(s, a, q);
  }

  /** The note after the first "잘한 점" label ends at the first section break. */
  lemma WellDoneStopsAtSection(pre: string, note: string, post: string)
    requires Absent(pre, WellDoneLabel)
    requires Absent(note, SectionBreak)
    requires exists k :: 0 <= k < |note| && !IsSpace(note[k])
    ensures WellDone(pre + WellDoneLabel + note + SectionBreak + post) == Trim(note)
  {
    var front := pre + WellDoneLabel;
    var a := |front|;
    WellDoneLabelUnbordered();
    FirstIn(pre, WellDoneLabel, note);
    FirstKept(front + note, SectionBreak + post, WellDoneLabel, |pre|);
    var s := front + note + (SectionBreak + post);
    SectionBreakUnbordered();
    FindAfterMid(front, note, SectionBreak, post);
    MidSlice(front, note, SectionBreak, post);
    assert s == front + note + SectionBreak + post;
    var k :| 0 <= k < |note| && !IsSpace(note[k]);
    assert s[a + k] == note[k];
    WellDoneBeforeBreak(s, |pre|, a + |note|, a + k);
  }

  /** Without a section break after the label, the note runs to the end of the
      review block. */
  lemma WellDoneRunsToEnd(pre: string, note: string)
    requires Absent(pre, WellDoneLabel)
    requires Absent(note, SectionBreak)
    ensures WellDone(pre + WellDoneLabel + note) == Trim(note)
  {
    var front := pre + WellDoneLabel;
    var s := front + note;
    var a := |front|;
    WellDoneLabelUnbordered();
    FirstIn(pre, WellDoneLabel, note);
    FindNoneInTail(front, note, SectionBreak);
    assert a == |pre| + |WellDoneLabel|;
    assert StartsAt(s, WellDoneLabel, |pre|) && NoneIn(s, WellDoneLabel, 0, |pre|);
    assert Find(s, SectionBreak, |pre| + |WellDoneLabel|) == None;
    WellDoneFromRest(s, |pre|);
    TrimSkippedRest(s, a);
    assert s[a..] == note;
  }

  /** A section break right after the label's white space leaves the note empty:
      `\s*` hands the line break back to `\n###`. */
  lemma WellDoneEmptySection(pre: string, post: string)
    requires Absent(pre, WellDoneLabel)
    requires Absent(post, SectionBreak)
    ensures WellDone(pre + WellDoneLabel + SectionBreak + post) == []
  {
    var front := pre + WellDoneLabel;
    var s := front + SectionBreak + post;
    assert s == pre + WellDoneLabel + (SectionBreak + post);
    WellDoneLabelUnbordered();
    FirstIn(pre, WellDoneLabel, SectionBreak + post);
    BreakRightAfter(front, post);
    WellDoneFromSection(s, |pre|);
    TrimOfSpaces([]);
  }

  /** A blank note followed by a heading: `\s*` takes the blank lines, the lazy
      group then runs to the next `\n###`, and the note is the heading below
      the label. */
  lemma BlankNoteTakesNextHeading()
    ensures WellDone(WellDoneLabel + "\n\n" + "### X" + SectionBreak + " Y") == "### X"
  {
    var x := WellDoneLabel + "\n\n";
    var core := "### X";
    var s := x + core + SectionBreak + " Y";
    MidSlice(x, core, SectionBreak, " Y");
    MidSlice(x + core, SectionBreak, " Y", []);
    assert s + [] == s;
    assert |s| == 18 && s[5] == '\n' && s[6] == '\n' && s[7] == '#';
    assert s[..5] == WellDoneLabel;
    assert s[6..10] == SectionBreak;
    FindIs(s, SectionBreak, 5, 6);
    assert WellDoneSectionAt(s, 0);
    WellDoneFromSection(s, 0);
    SpanIs(s, 5, IsSpace, 7);
    forall j: nat | 7 <= j < 12 ensures !StartsAt(s, SectionBreak, j) {
      assert s[j..j + 4][0] == s[j];
    }
    FindIs(s, SectionBreak, 7, 12);
    assert [] + core + [] == core;
    TrimUnique([], core, []);
  }

  /** A section break directly after `front`, and none in what follows it. */
  lemma BreakRightAfter(front: string, post: string)
    requires Absent(post, SectionBreak)
    ensures var s := front + SectionBreak + post;
      && Find(s, SectionBreak, |front|) == Some(|front|)
      && SkipSpaces(s, |front|) == |front| + 1
      && Find(s, SectionBreak, |front| + 1) == None
  {
    BreakFoundAt(front, SectionBreak + post);
    BreakSpaceIsNewline(front, post);
    NoBreakAfterNewline(front, post);
  }

  lemma BreakFoundAt(front: string, rest: string)
    requires |rest| >= 4 && rest[..4] == SectionBreak
    ensures Find(front + rest, SectionBreak, |front|) == Some(|front|)
  {
    StartsAtShift(front, rest, SectionBreak, 0);
    FindIs(front + rest, SectionBreak, |front|, |front|);
  }

  lemma BreakSpaceIsNewline(front: string, post: string)
    ensures SkipSpaces(front + SectionBreak + post, |front|) == |front| + 1
  {
    var s := front + SectionBreak + post;
    assert s[|front|] == '\n' && s[|front| + 1] == '#';
    SpanIs(s, |front|, IsSpace, |front| + 1);
  }

  lemma NoBreakAfterNewline(front: string, post: string)
    requires Absent(post, SectionBreak)
    ensures Find(front + SectionBreak + post, SectionBreak, |front| + 1) == None
  {
    var s := front + SectionBreak + post;
    var hashes := "###";
    AbsentAfterHeadFree(hashes, post, SectionBreak);
    assert s == (front + "\n") + (hashes + post);
    forall j: nat | |front| + 1 <= j ensures !StartsAt(s, SectionBreak, j) {
      StartsAtShift(front + "\n", hashes + post, SectionBreak, j - (|front| + 1));
    }
    FindNone(s, SectionBreak, |front| + 1);
  }

  // ---------------------------------------------- the "고려하지 못한 점" note

  /** The rest of the block after the first "고려하지 못한 점" label, trimmed, or the
      fallback text when the label is missing. */
  function NeedsImprovement(block: string): (r: string)
    ensures Absent(block, GapsLabel) ==> r == MissingText
  {
    match Find(block, GapsLabel, 0)
    case Some(p) => Trim(block[SkipSpaces(block, p + |GapsLabel|)..])
    case None => MissingText
  }

  lemma NeedsImprovementReadsRest(pre: string, note: string)
    requires Absent(pre, GapsLabel)
    ensures NeedsImprovement(pre + GapsLabel + note) == Trim(note)
  {
    var s := pre + GapsLabel + note;
    var a := |pre| + |GapsLabel|;
    GapsLabelUnbordered();
    FirstIn(pre, GapsLabel, note);
    FindIs(s, GapsLabel, 0, |pre|);
    TrimSkippedRest(s, a);
    assert s[a..] == note;
  }

  // ------------------------------------------------------- the whole review

  /** The review fields after the parsing step: the defaults when the review part
      is absent or empty (`if (reviewBlock)`), otherwise the three independent
      extractions (four regular expressions in all). */
  function ReviewOf(review: Option<string>): (r: SelfReview)
    ensures review.None? || review.value == [] ==> r == Defaults
    ensures review.Some? && review.value != [] && (forall p: nat :: p <= |review.value| ==> !RatingMatchAt(review.value, p))
            ==> r.rating == 0
    ensures review.Some? && review.value != [] && Absent(review.value, WellDoneLabel) ==> r.wellDone == MissingText
    ensures review.Some? && review.value != [] && Absent(review.value, GapsLabel) ==> r.needsImprovement == MissingText
  {
    if review.Some? && review.value != [] then
      SelfReview(Rating(review.value), WellDone(review.value), NeedsImprovement(review.value))
    else Defaults
  }

  /** A review block holding only a score: the rating is read, and both notes
      report that their text was not found. */
  lemma ScoreOnlyReview(n: nat)
    ensures ReviewOf(Some("\n" + ScoreLabel + " " + Decimal(n) + "\n"))
            == SelfReview(n, MissingText, MissingText)
  {
    var prefix := "\n" + ScoreLabel + " ";
    var digits := Decimal(n);
    var s := prefix + digits + "\n";
    assert |prefix| == 5;
    forall k | 0 <= k < |s| ensures s[k] != WellDoneLabel[0] && s[k] != GapsLabel[0] {
      if k < 5 {
        assert s[k] == prefix[k];
      } else if k < 5 + |digits| {
        assert s[k] == digits[k - 5];
      } else {
        assert s[k] == '\n';
      }
    }
    AbsentByHead(s, WellDoneLabel);
    AbsentByHead(s, GapsLabel);
    AbsentByHead("\n", ScoreLabel);
    assert s == "\n" + ScoreLabel + " " + digits + "\n";
    RatingReadsFirstScore("\n", " ", n, "\n");
  }
}
