/**
 * Horizontal-projection line segmentation, `LineSegmenter.segment_lines` and
 * `_merge_close_lines` (backend/services/line_segmentation.py).
 */
module Lines {
  import opened Raster

  /** Rows `start` (inclusive) to `end` (exclusive) of the page. */
  datatype Band = Band(start: nat, end: nat)

  /** One detected text line: its rank from the top, its rows and the image strip. */
  datatype LineBand = LineBand(order: nat, yStart: nat, yEnd: nat, image: Image)

  // ---------------------------------------------------------------------------
  // Projection

  /** Rows whose projection is non-zero: at least one ink pixel. */
  predicate RowHasInk(img: Image, i: nat)
    requires i < Height(img)
  {
    exists j :: 0 <= j < Width(img) && IsInk(img[i][j])
  }

  /**
   * The row sums of the inverse-binarized image: 255 per ink pixel. A row's sum
   * is positive exactly when the row holds ink.
   */
  function Projection(img: Image): (p: seq<nat>)
    ensures |p| == Height(img)
    ensures forall i :: 0 <= i < |p| ==> (p[i] > 0 <==> RowHasInk(img, i))
  {
    var bin := BinarizeInv(img);
    var p := seq(|img|, i requires 0 <= i < |img| => RowSum(bin[i]));
    forall i | 0 <= i < |p| ensures p[i] > 0 <==> RowHasInk(img, i) {
      RowSumPositive(bin[i]);
      assert forall j :: 0 <= j < Width(img) ==> (bin[i][j] > 0 <==> IsInk(img[i][j]));
    }
    p
  }

  lemma {:induction false} RowSumPositive(row: seq<Pixel>)
    ensures RowSum(row) > 0 <==> exists j :: 0 <= j < |row| && row[j] > 0
  {
    if |row| > 0 {
      var n := |row| - 1;
      RowSumPositive(row[..n]);
      assert forall j :: 0 <= j < n ==> row[..n][j] == row[j];
    }
  }

  // ---------------------------------------------------------------------------
  // Reference definitions

  /** Row `r` exists and its projection is non-zero. */
  predicate Ink(p: seq<nat>, r: int) { 0 <= r < |p| && p[r] > 0 }

  /** A maximal run of non-zero rows of the projection. */
  ghost predicate IsRun(p: seq<nat>, b: Band) {
    && b.start < b.end <= |p|
    && (forall r :: b.start <= r < b.end ==> p[r] > 0)
    && (b.start == 0 || p[b.start - 1] == 0)
    && (b.end == |p| || p[b.end] == 0)
  }

  /**
   * The runs `segment_lines` keeps: those closed by a blank row must be at least
   * `minHeight` tall; the run reaching the bottom of the image is kept regardless.
   */
  ghost predicate IsKept(p: seq<nat>, minHeight: int, b: Band) {
    IsRun(p, b) && (b.end == |p| || b.end - b.start >= minHeight)
  }

  /** Non-empty bands, each ending strictly before the next one starts. */
  ghost predicate Ordered(bs: seq<Band>) {
    && (forall i :: 0 <= i < |bs| ==> bs[i].start < bs[i].end)
    && (forall i, j :: 0 <= i < j < |bs| ==> bs[i].end < bs[j].start)
  }

  // ---------------------------------------------------------------------------
  // The scan

  /** The loop state of the scan: the closed bands so far, the in-line flag, and where the open band began. */
  datatype ScanState = ScanState(lines: seq<Band>, inLine: bool, lineStart: nat)

  /** One iteration of the scan, at row `i` with projection `value`. */
  function Step(s: ScanState, i: nat, value: nat, minHeight: int): ScanState {
    if value > 0 && !s.inLine then
      ScanState(s.lines, true, i)
    else if value == 0 && s.inLine then
      if i - s.lineStart >= minHeight then ScanState(s.lines + [Band(s.lineStart, i)], false, s.lineStart)
      else ScanState(s.lines, false, s.lineStart)
    else
      s
  }

  /** The state after the first `n` rows. */
  function ScanUpTo(p: seq<nat>, n: nat, minHeight: int): ScanState
    requires n <= |p|
  {
    if n == 0 then ScanState([], false, 0)
    else Step(ScanUpTo(p, n - 1, minHeight), n - 1, p[n - 1], minHeight)
  }

  /** The scan followed by closing a band still open at the last row at the image height. */
  function FindBands(p: seq<nat>, minHeight: int): seq<Band> {
    var s := ScanUpTo(p, |p|, minHeight);
    if s.inLine then s.lines + [Band(s.lineStart, |p|)] else s.lines
  }

  /** What holds of the scan state after `n` rows. */
  ghost predicate ScanInv(p: seq<nat>, n: nat, minHeight: int, s: ScanState)
    requires n <= |p|
  {
    && Ordered(s.lines)
    && (forall b :: b in s.lines <==> IsRun(p, b) && b.end < n && b.end - b.start >= minHeight)
    && (s.inLine <==> n > 0 && p[n - 1] > 0)
    && (s.inLine ==>
          && s.lineStart < n
          && (forall r :: s.lineStart <= r < n ==> p[r] > 0)
          && (s.lineStart == 0 || p[s.lineStart - 1] == 0))
    && (forall k :: 0 <= k < |s.lines| ==> s.lines[k].end < n)
  }

  /** Two runs that end at the same row are the same run. */
  lemma RunEndUnique(p: seq<nat>, b: Band, c: Band)
    requires IsRun(p, b) && IsRun(p, c) && b.end == c.end
    ensures b == c
  {
    assert b.start < c.start ==> Ink(p, c.start - 1);
    assert c.start < b.start ==> Ink(p, b.start - 1);
  }

  lemma {:induction false} ScanInvariant(p: seq<nat>, n: nat, minHeight: int)
    requires n <= |p|
    ensures ScanInv(p, n, minHeight, ScanUpTo(p, n, minHeight))
  {
    if n > 0 {
      ScanInvariant(p, n - 1, minHeight);
      StepInvariant(p, n - 1, minHeight, ScanUpTo(p, n - 1, minHeight));
    }
  }

  /** One step of the scan keeps the invariant. */
  lemma StepInvariant(p: seq<nat>, i: nat, minHeight: int, s: ScanState)
    requires i < |p|
    requires ScanInv(p, i, minHeight, s)
    ensures ScanInv(p, i + 1, minHeight, Step(s, i, p[i], minHeight))
  {
    if p[i] > 0 && !s.inLine {
      forall b | IsRun(p, b) && b.end < i + 1
        ensures b.end < i
      {
      }
    } else if p[i] == 0 && s.inLine {
      CloseInvariant(p, i, minHeight, s);
    } else if p[i] == 0 && !s.inLine {
      forall b | IsRun(p, b) && b.end < i + 1
        ensures b.end < i
      {
        assert b.end == i ==> Ink(p, i - 1);
      }
    }
  }

  /** Closing the open band at a blank row keeps the invariant. */
  lemma CloseInvariant(p: seq<nat>, i: nat, minHeight: int, s: ScanState)
    requires i < |p| && p[i] == 0 && s.inLine
    requires ScanInv(p, i, minHeight, s)
    ensures ScanInv(p, i + 1, minHeight, Step(s, i, p[i], minHeight))
  {
    var c := Band(s.lineStart, i);
    assert IsRun(p, c);
    forall b | IsRun(p, b) && b.end == i
      ensures b == c
    {
      RunEndUnique(p, b, c);
    }
    forall k | 0 <= k < |s.lines|
      ensures s.lines[k].end < s.lineStart
    {
      assert s.lines[k] in s.lines;
      assert p[s.lines[k].end] == 0;
    }
    var t := Step(s, i, p[i], minHeight);
    if i - s.lineStart >= minHeight {
      assert t.lines == s.lines + [c];
      forall b
        ensures b in t.lines <==> IsRun(p, b) && b.end < i + 1 && b.end - b.start >= minHeight
      {
        assert b in t.lines <==> b in s.lines || b == c;
      }
    }
  }

  /**
   * The bands of the scan are exactly the kept runs, top to bottom. In particular
   * a band opens on a row with ink, closes on the next blank row, and a band
   * reaching the bottom closes at the image height.
   */
  lemma FindBandsSpec(p: seq<nat>, minHeight: int)
    ensures Ordered(FindBands(p, minHeight))
    ensures forall b :: b in FindBands(p, minHeight) <==> IsKept(p, minHeight, b)
  {
    ScanInvariant(p, |p|, minHeight);
    var s := ScanUpTo(p, |p|, minHeight);
    if s.inLine {
      CloseAtBottom(p, minHeight, s);
    } else {
      NoneAtBottom(p, minHeight, s);
    }
  }

  /** A band still open after the last row closes at the image height and is kept. */
  lemma CloseAtBottom(p: seq<nat>, minHeight: int, s: ScanState)
    requires ScanInv(p, |p|, minHeight, s) && s.inLine
    ensures Ordered(s.lines + [Band(s.lineStart, |p|)])
    ensures forall b :: b in s.lines + [Band(s.lineStart, |p|)] <==> IsKept(p, minHeight, b)
  {
    var c := Band(s.lineStart, |p|);
    assert IsRun(p, c);
    forall b | IsRun(p, b) && b.end == |p|
      ensures b == c
    {
      RunEndUnique(p, b, c);
    }
    forall k | 0 <= k < |s.lines|
      ensures s.lines[k].end < s.lineStart
    {
      assert s.lines[k] in s.lines;
      assert p[s.lines[k].end] == 0;
    }
  }

  /** With no band open after the last row, no run reaches the bottom. */
  lemma NoneAtBottom(p: seq<nat>, minHeight: int, s: ScanState)
    requires ScanInv(p, |p|, minHeight, s) && !s.inLine
    ensures forall b :: b in s.lines <==> IsKept(p, minHeight, b)
  {
    forall b | IsRun(p, b)
      ensures b.end < |p|
    {
      assert b.end == |p| ==> Ink(p, |p| - 1);
    }
  }

  // ---------------------------------------------------------------------------
  // Merging close bands

  /** Each band starts more than `maxGap` rows after its predecessor ends. */
  ghost predicate GapsExceed(m: seq<Band>, maxGap: int) {
    forall i, j :: 0 <= i < |m| && j == i + 1 && j < |m| ==> m[j].start - m[i].end > maxGap
  }

  /** Folds `cur` into the merged list: joined to the last band when the gap is at most `maxGap`. */
  function MergeStep(m: seq<Band>, cur: Band, maxGap: int): seq<Band>
    requires |m| > 0
  {
    var last := m[|m| - 1];
    if cur.start - last.end <= maxGap then m[..|m| - 1] + [Band(last.start, cur.end)]
    else m + [cur]
  }

  /** The merged list after the first `n` input bands. */
  function MergeUpTo(lines: seq<Band>, n: nat, maxGap: int): (m: seq<Band>)
    requires 1 <= n <= |lines|
    ensures 1 <= |m| <= n
    ensures m[0].start == lines[0].start && m[|m| - 1].end == lines[n - 1].end
  {
    if n == 1 then [lines[0]]
    else MergeStep(MergeUpTo(lines, n - 1, maxGap), lines[n - 1], maxGap)
  }

  /** Neighbouring merged bands are more than `maxGap` rows apart. */
  lemma {:induction false} MergeGaps(lines: seq<Band>, n: nat, maxGap: int)
    requires 1 <= n <= |lines|
    ensures GapsExceed(MergeUpTo(lines, n, maxGap), maxGap)
  {
    if n > 1 {
      MergeGaps(lines, n - 1, maxGap);
      MergeStepGaps(MergeUpTo(lines, n - 1, maxGap), lines[n - 1], maxGap);
    }
  }

  lemma MergeStepGaps(m: seq<Band>, cur: Band, maxGap: int)
    requires |m| >= 1 && GapsExceed(m, maxGap)
    ensures GapsExceed(MergeStep(m, cur, maxGap), maxGap)
  {
    var r := MergeStep(m, cur, maxGap);
    forall i, j | 0 <= i < |r| && j == i + 1 && j < |r|
      ensures r[j].start - r[i].end > maxGap
    {
      if j < |m| {
        assert r[i] == m[i] && r[j].start == m[j].start;
      }
    }
  }

  /**
   * `_merge_close_lines`: the first start and the last end survive, the list only
   * shrinks, and neighbouring results are more than `maxGap` rows apart.
   */
  function MergeClose(lines: seq<Band>, maxGap: int): (m: seq<Band>)
    ensures |m| <= |lines|
    ensures |m| == 0 <==> |lines| == 0
    ensures |lines| > 0 ==> m[0].start == lines[0].start && m[|m| - 1].end == lines[|lines| - 1].end
    ensures GapsExceed(m, maxGap)
  {
    if |lines| == 0 then []
    else
      MergeGaps(lines, |lines|, maxGap);
      MergeUpTo(lines, |lines|, maxGap)
  }

  /** Band `b` lies within band `c`. */
  predicate Inside(b: Band, c: Band) {
    c.start <= b.start && b.end <= c.end
  }

  /** The start rows of the bands, in order. */
  function Starts(lines: seq<Band>): (r: seq<nat>)
    ensures |r| == |lines| && forall k :: 0 <= k < |lines| ==> r[k] == lines[k].start
  {
    seq(|lines|, k requires 0 <= k < |lines| => lines[k].start)
  }

  /** The end rows of the bands, in order. */
  function Ends(lines: seq<Band>): (r: seq<nat>)
    ensures |r| == |lines| && forall k :: 0 <= k < |lines| ==> r[k] == lines[k].end
  {
    seq(|lines|, k requires 0 <= k < |lines| => lines[k].end)
  }

  /** `x` is the start of one of the first `n` input bands. */
  ghost predicate IsStartOf(lines: seq<Band>, n: nat, x: nat) {
    n <= |lines| && x in Starts(lines)[..n]
  }

  /** `x` is the end of one of the first `n` input bands. */
  ghost predicate IsEndOf(lines: seq<Band>, n: nat, x: nat) {
    n <= |lines| && x in Ends(lines)[..n]
  }

  /** Every band of `m` starts at the start and ends at the end of one of the first `n` input bands. */
  ghost predicate FromInput(lines: seq<Band>, n: nat, m: seq<Band>) {
    forall j :: 0 <= j < |m| ==> IsStartOf(lines, n, m[j].start) && IsEndOf(lines, n, m[j].end)
  }

  /** Band `b` lies within one of the bands of `m`. */
  ghost predicate Covered(b: Band, m: seq<Band>) {
    exists j :: 0 <= j < |m| && Inside(b, m[j])
  }

  /** The merge keeps bands ordered. */
  lemma {:induction false} MergeOrdered(lines: seq<Band>, n: nat, maxGap: int)
    requires Ordered(lines)
    requires 1 <= n <= |lines|
    ensures Ordered(MergeUpTo(lines, n, maxGap))
  {
    if n > 1 {
      MergeOrdered(lines, n - 1, maxGap);
      assert lines[n - 2].end < lines[n - 1].start;
      MergeStepOrdered(MergeUpTo(lines, n - 1, maxGap), lines[n - 1], maxGap);
    }
  }

  /** Each of the first `n` input bands lies within a merged band. */
  lemma {:induction false} MergeCovers(lines: seq<Band>, n: nat, maxGap: int)
    requires Ordered(lines)
    requires 1 <= n <= |lines|
    ensures forall k :: 0 <= k < n ==> Covered(lines[k], MergeUpTo(lines, n, maxGap))
  {
    if n == 1 {
      MergeFirst(lines, maxGap);
    } else {
      var m := MergeUpTo(lines, n - 1, maxGap);
      MergeCovers(lines, n - 1, maxGap);
      MergeOrdered(lines, n - 1, maxGap);
      MergeStepCovers(lines, n, m, maxGap);
      assert MergeUpTo(lines, n, maxGap) == MergeStep(m, lines[n - 1], maxGap);
    }
  }

  /** After the first input band the merged list is that band alone. */
  lemma MergeFirst(lines: seq<Band>, maxGap: int)
    requires 1 <= |lines|
    ensures Covered(lines[0], MergeUpTo(lines, 1, maxGap))
    ensures FromInput(lines, 1, MergeUpTo(lines, 1, maxGap))
  {
    var m := MergeUpTo(lines, 1, maxGap);
    assert m == [lines[0]];
    assert Inside(lines[0], m[0]);
    assert Starts(lines)[..1] == [lines[0].start];
    assert Ends(lines)[..1] == [lines[0].end];
  }

  /** Every merged band starts at some input start and ends at some input end. */
  lemma {:induction false} MergeFromInput(lines: seq<Band>, n: nat, maxGap: int)
    requires 1 <= n <= |lines|
    ensures FromInput(lines, n, MergeUpTo(lines, n, maxGap))
  {
    if n == 1 {
      MergeFirst(lines, maxGap);
    } else {
      MergeFromInput(lines, n - 1, maxGap);
      MergeStepFromInput(lines, n, MergeUpTo(lines, n - 1, maxGap), maxGap);
    }
  }

  lemma MergeStepOrdered(m: seq<Band>, cur: Band, maxGap: int)
    requires |m| >= 1 && Ordered(m)
    requires m[|m| - 1].end < cur.start < cur.end
    ensures Ordered(MergeStep(m, cur, maxGap))
  {
  }

  lemma MergeStepCovers(lines: seq<Band>, n: nat, m: seq<Band>, maxGap: int)
    requires Ordered(lines)
    requires 2 <= n <= |lines|
    requires |m| >= 1 && Ordered(m) && m[|m| - 1].end == lines[n - 2].end
    requires forall k :: 0 <= k < n - 1 ==> Covered(lines[k], m)
    ensures forall k :: 0 <= k < n ==> Covered(lines[k], MergeStep(m, lines[n - 1], maxGap))
  {
    var r := MergeStep(m, lines[n - 1], maxGap);
    assert lines[n - 2].end < lines[n - 1].start;
    MergeStepGrows(m, lines[n - 1], maxGap);
    forall k | 0 <= k < n
      ensures Covered(lines[k], r)
    {
      if k == n - 1 {
        assert Inside(lines[k], r[|r| - 1]);
      } else {
        var j :| 0 <= j < |m| && Inside(lines[k], m[j]);
        assert Inside(lines[k], r[j]);
      }
    }
  }

  /** A merge step only widens the existing bands and ends with one holding `cur`. */
  lemma MergeStepGrows(m: seq<Band>, cur: Band, maxGap: int)
    requires |m| >= 1 && m[|m| - 1].start <= m[|m| - 1].end < cur.start <= cur.end
    ensures var r := MergeStep(m, cur, maxGap);
      && |r| >= |m|
      && Inside(cur, r[|r| - 1])
      && (forall j :: 0 <= j < |m| ==> r[j].start == m[j].start && r[j].end >= m[j].end)
  {
  }

  lemma MergeStepFromInput(lines: seq<Band>, n: nat, m: seq<Band>, maxGap: int)
    requires 2 <= n <= |lines|
    requires |m| >= 1 && FromInput(lines, n - 1, m)
    ensures FromInput(lines, n, MergeStep(m, lines[n - 1], maxGap))
  {
    var r := MergeStep(m, lines[n - 1], maxGap);
    assert Starts(lines)[..n] == Starts(lines)[..n - 1] + [lines[n - 1].start];
    assert Ends(lines)[..n] == Ends(lines)[..n - 1] + [lines[n - 1].end];
    forall j | 0 <= j < |r|
      ensures IsStartOf(lines, n, r[j].start) && IsEndOf(lines, n, r[j].end)
    {
      if j < |m| - 1 {
        assert r[j] == m[j];
      } else if j == |m| - 1 {
        assert r[j].start == m[j].start;
      }
    }
  }

  /**
   * On ordered input the merge yields ordered bands, every input band lies in one
   * of them, and each result band runs from some input start to some input end.
   */
  lemma MergeCloseSpec(lines: seq<Band>, maxGap: int)
    requires Ordered(lines)
    ensures Ordered(MergeClose(lines, maxGap))
    ensures forall k :: 0 <= k < |lines| ==> Covered(lines[k], MergeClose(lines, maxGap))
    ensures FromInput(lines, |lines|, MergeClose(lines, maxGap))
  {
    if |lines| > 0 {
      MergeOrdered(lines, |lines|, maxGap);
      MergeCovers(lines, |lines|, maxGap);
      MergeFromInput(lines, |lines|, maxGap);
    }
  }

  /** A non-empty band lies in at most one band of an ordered list. */
  lemma InsideUnique(m: seq<Band>, b: Band, i: nat, j: nat)
    requires Ordered(m) && b.start < b.end
    requires i < |m| && j < |m| && Inside(b, m[i]) && Inside(b, m[j])
    ensures i == j
  {
  }

  // ---------------------------------------------------------------------------
  // segment_lines

  /** The rows `a` to `b` of the image, `img[a:b, :]`. */
  function Rows(img: Image, a: nat, b: nat): (r: Image)
    requires a <= b <= Height(img)
    ensures r == img[a..b]
  {
    var r := img[a..b];
    assert forall i :: 0 <= i < |r| ==> r[i] == img[a + i];
    r
  }

  /** The bands of a projection: the kept runs, merged across gaps of at most `maxGap` rows. */
  function BandsOf(p: seq<nat>, minHeight: int, maxGap: int): seq<Band> {
    MergeClose(FindBands(p, minHeight), maxGap)
  }

  /**
   * Each line is numbered by its position, holds the image rows it spans and
   * starts and ends on a row with ink.
   */
  ghost predicate Placed(img: Image, r: seq<LineBand>) {
    forall i :: 0 <= i < |r| ==>
      && r[i].order == i
      && r[i].yStart < r[i].yEnd <= Height(img)
      && r[i].image == img[r[i].yStart..r[i].yEnd]
      && RowHasInk(img, r[i].yStart) && RowHasInk(img, r[i].yEnd - 1)
  }

  /** Lines run top to bottom without overlap, neighbours more than `maxGap` rows apart. */
  ghost predicate Apart(r: seq<LineBand>, maxGap: int) {
    && (forall i, j :: 0 <= i < j < |r| ==> r[i].yEnd < r[j].yStart)
    && (forall i, j :: 0 <= i < |r| && j == i + 1 && j < |r| ==> r[j].yStart - r[i].yEnd > maxGap)
  }

  /** Every kept run of ink rows lies within one of the lines. */
  ghost predicate CoversRuns(img: Image, minHeight: int, r: seq<LineBand>) {
    forall b :: IsKept(Projection(img), minHeight, b) ==>
      exists i :: 0 <= i < |r| && r[i].yStart <= b.start && b.end <= r[i].yEnd
  }

  /** No row of the image holds ink. */
  predicate Blank(img: Image) {
    forall y :: 0 <= y < Height(img) ==> !RowHasInk(img, y)
  }

  /**
   * `segment_lines`: text lines top to bottom, numbered by position, disjoint and
   * more than `maxGap` rows apart, each starting and ending on a row with ink and
   * together covering every kept run of ink rows; a page without ink has none.
   */
  function SegmentLines(img: Image, minHeight: int, maxGap: int): (r: seq<LineBand>)
    ensures Placed(img, r)
    ensures Apart(r, maxGap)
    ensures CoversRuns(img, minHeight, r)
    ensures Blank(img) ==> r == []
  {
    var m := BandsOf(Projection(img), minHeight, maxGap);
    SegmentPlaced(img, minHeight, maxGap, m);
    SegmentApart(img, minHeight, maxGap, m);
    SegmentCovers(img, minHeight, maxGap, m);
    BlankNoBands(img, minHeight, maxGap);
    ToLines(img, m)
  }

  /** Non-empty bands within the image's rows. */
  ghost predicate Fits(img: Image, m: seq<Band>) {
    forall i :: 0 <= i < |m| ==> m[i].start < m[i].end && m[i].end <= |img|
  }

  lemma SegmentPlaced(img: Image, minHeight: int, maxGap: int, m: seq<Band>)
    requires m == BandsOf(Projection(img), minHeight, maxGap)
    ensures Fits(img, m)
    ensures Placed(img, ToLines(img, m))
  {
    var p := Projection(img);
    BandsOrdered(p, minHeight, maxGap);
    BandsInk(p, minHeight, maxGap);
    LinesPlaced(img, p, m, ToLines(img, m));
  }

  lemma SegmentApart(img: Image, minHeight: int, maxGap: int, m: seq<Band>)
    requires m == BandsOf(Projection(img), minHeight, maxGap)
    requires Fits(img, m)
    ensures Apart(ToLines(img, m), maxGap)
  {
    BandsOrdered(Projection(img), minHeight, maxGap);
    LinesApart(m, maxGap, ToLines(img, m));
  }

  lemma SegmentCovers(img: Image, minHeight: int, maxGap: int, m: seq<Band>)
    requires m == BandsOf(Projection(img), minHeight, maxGap)
    requires Fits(img, m)
    ensures CoversRuns(img, minHeight, ToLines(img, m))
  {
    var p := Projection(img);
    BandsCoverKept(p, minHeight, maxGap);
    LinesCover(img, p, minHeight, m, ToLines(img, m));
  }

  lemma BlankNoBands(img: Image, minHeight: int, maxGap: int)
    ensures Blank(img) ==> BandsOf(Projection(img), minHeight, maxGap) == []
  {
    var p := Projection(img);
    if Blank(img) {
      assert forall y :: 0 <= y < |p| ==> p[y] == 0;
      BandsEmpty(p, minHeight, maxGap);
    }
  }

  /** One `LineBand` per band, numbered in order, holding the band's rows. */
  function ToLines(img: Image, m: seq<Band>): (r: seq<LineBand>)
    requires Fits(img, m)
    ensures |r| == |m|
    ensures forall i :: 0 <= i < |m| ==> r[i] == LineBand(i, m[i].start, m[i].end, img[m[i].start..m[i].end])
  {
    seq(|m|, i requires 0 <= i < |m| => LineBand(i, m[i].start, m[i].end, Rows(img, m[i].start, m[i].end)))
  }

  lemma LinesPlaced(img: Image, p: seq<nat>, m: seq<Band>, r: seq<LineBand>)
    requires p == Projection(img) && OnInk(p, m) && Ordered(m)
    requires |r| == |m|
    requires forall i :: 0 <= i < |m| ==> r[i] == LineBand(i, m[i].start, m[i].end, img[m[i].start..m[i].end])
    ensures Placed(img, r)
  {
    forall i | 0 <= i < |r|
      ensures RowHasInk(img, r[i].yStart) && RowHasInk(img, r[i].yEnd - 1)
    {
      assert Ink(p, m[i].start) && Ink(p, m[i].end - 1);
    }
  }

  lemma LinesApart(m: seq<Band>, maxGap: int, r: seq<LineBand>)
    requires Ordered(m) && GapsExceed(m, maxGap)
    requires |r| == |m|
    requires forall i :: 0 <= i < |m| ==> r[i].yStart == m[i].start && r[i].yEnd == m[i].end
    ensures Apart(r, maxGap)
  {
  }

  lemma LinesCover(img: Image, p: seq<nat>, minHeight: int, m: seq<Band>, r: seq<LineBand>)
    requires p == Projection(img)
    requires forall b :: IsKept(p, minHeight, b) ==> Covered(b, m)
    requires |r| == |m|
    requires forall i :: 0 <= i < |r| ==> r[i].yStart == m[i].start && r[i].yEnd == m[i].end
    ensures CoversRuns(img, minHeight, r)
  {
    forall b | IsKept(p, minHeight, b)
      ensures exists i :: 0 <= i < |r| && r[i].yStart <= b.start && b.end <= r[i].yEnd
    {
      var i :| 0 <= i < |m| && Inside(b, m[i]);
      assert r[i].yStart <= b.start && b.end <= r[i].yEnd;
    }
  }

  /** Every merged band lies within the page and opens and closes on a row with ink. */
  ghost predicate OnInk(p: seq<nat>, m: seq<Band>) {
    forall i :: 0 <= i < |m| ==> m[i].end <= |p| && Ink(p, m[i].start) && Ink(p, m[i].end - 1)
  }

  /** The merged bands of a projection are ordered and more than `maxGap` rows apart. */
  lemma BandsOrdered(p: seq<nat>, minHeight: int, maxGap: int)
    ensures Ordered(BandsOf(p, minHeight, maxGap)) && GapsExceed(BandsOf(p, minHeight, maxGap), maxGap)
  {
    FindBandsSpec(p, minHeight);
    MergeCloseSpec(FindBands(p, minHeight), maxGap);
  }

  /** Every merged band lies within the page and opens and closes on a row with ink. */
  lemma BandsInk(p: seq<nat>, minHeight: int, maxGap: int)
    ensures OnInk(p, BandsOf(p, minHeight, maxGap))
  {
    var found := FindBands(p, minHeight);
    FindBandsSpec(p, minHeight);
    MergeCloseSpec(found, maxGap);
    BandsOnInk(p, found, MergeClose(found, maxGap));
  }

  /** Every kept run lies within a merged band. */
  lemma BandsCoverKept(p: seq<nat>, minHeight: int, maxGap: int)
    ensures forall b :: IsKept(p, minHeight, b) ==> Covered(b, BandsOf(p, minHeight, maxGap))
  {
    var found := FindBands(p, minHeight);
    FindBandsSpec(p, minHeight);
    MergeCloseSpec(found, maxGap);
    BandsCover(p, minHeight, found, MergeClose(found, maxGap));
  }

  /** A projection without ink yields no bands. */
  lemma BandsEmpty(p: seq<nat>, minHeight: int, maxGap: int)
    requires forall y :: 0 <= y < |p| ==> p[y] == 0
    ensures BandsOf(p, minHeight, maxGap) == []
  {
    var found := FindBands(p, minHeight);
    FindBandsSpec(p, minHeight);
    assert found != [] ==> found[0] in found && Ink(p, found[0].start);
  }

  lemma BandsOnInk(p: seq<nat>, found: seq<Band>, m: seq<Band>)
    requires forall b :: b in found ==> IsRun(p, b)
    requires forall j :: 0 <= j < |m| ==> IsStartOf(found, |found|, m[j].start) && IsEndOf(found, |found|, m[j].end)
    ensures OnInk(p, m)
  {
    assert Starts(found)[..|found|] == Starts(found);
    assert Ends(found)[..|found|] == Ends(found);
    forall i | 0 <= i < |m|
      ensures m[i].end <= |p| && Ink(p, m[i].start) && Ink(p, m[i].end - 1)
    {
      StartOnInk(p, found, m[i].start);
      EndOnInk(p, found, m[i].end);
    }
  }

  lemma StartOnInk(p: seq<nat>, found: seq<Band>, x: nat)
    requires forall b :: b in found ==> IsRun(p, b)
    requires x in Starts(found)
    ensures Ink(p, x)
  {
    var k :| 0 <= k < |found| && Starts(found)[k] == x;
    assert found[k] in found;
  }

  lemma EndOnInk(p: seq<nat>, found: seq<Band>, x: nat)
    requires forall b :: b in found ==> IsRun(p, b)
    requires x in Ends(found)
    ensures x <= |p| && Ink(p, x - 1)
  {
    var k :| 0 <= k < |found| && Ends(found)[k] == x;
    assert found[k] in found;
  }

  lemma BandsCover(p: seq<nat>, minHeight: int, found: seq<Band>, m: seq<Band>)
    requires forall b :: b in found <==> IsKept(p, minHeight, b)
    requires forall k :: 0 <= k < |found| ==> Covered(found[k], m)
    ensures forall b :: IsKept(p, minHeight, b) ==> Covered(b, m)
  {
    forall b | IsKept(p, minHeight, b)
      ensures Covered(b, m)
    {
      var k :| 0 <= k < |found| && found[k] == b;
    }
  }

  /**
   * The worked example: projection [0,0,5,5,5,0,0,3,3,0,0] with minimum height 2
   * and maximum gap 1 yields rows [2,5) and [7,9), left apart because the gap of
   * 2 rows exceeds 1.
   */
  lemma ProjectionExample()
    ensures BandsOf([0, 0, 5, 5, 5, 0, 0, 3, 3, 0, 0], 2, 1) == [Band(2, 5), Band(7, 9)]
  {
    var p: seq<nat> := [0, 0, 5, 5, 5, 0, 0, 3, 3, 0, 0];
    assert ScanUpTo(p, 2, 2) == ScanState([], false, 0);
    assert ScanUpTo(p, 5, 2) == ScanState([], true, 2);
    assert ScanUpTo(p, 6, 2) == ScanState([Band(2, 5)], false, 2);
    assert ScanUpTo(p, 7, 2) == ScanState([Band(2, 5)], false, 2);
    assert ScanUpTo(p, 9, 2) == ScanState([Band(2, 5)], true, 7);
    assert ScanUpTo(p, 10, 2) == ScanState([Band(2, 5), Band(7, 9)], false, 7);
    assert ScanUpTo(p, 11, 2) == ScanState([Band(2, 5), Band(7, 9)], false, 7);
    var found := [Band(2, 5), Band(7, 9)];
    assert FindBands(p, 2) == found;
    assert MergeUpTo(found, 2, 1) == found;
  }
}
