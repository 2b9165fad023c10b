/**
 * The integer geometry of `writeSVG`: the empty-data guards, the grid of
 * language tiles, the vertical centring of the content, the stacked usage
 * bar and the optional footnote naming the excluded languages. The SVG text
 * itself and the file write are not modelled; what is modelled are the base
 * coordinates, sizes, colours and strings, from which the rest of the text
 * follows by constants and fixed offsets.
 */
module Layout {
  import opened Wrappers
  import opened Text
  import opened Ranking
  import opened Colors
  import opened Escape

  function Abs(x: int): nat {
    if x < 0 then -x else x
  }

  /** Go's `/` on integers: the quotient truncated toward zero. */
  function GoDiv(a: int, b: int): (q: int)
    requires b != 0
    ensures b > 0 && a >= 0 ==> q == a / b
    ensures b > 0 && a < 0 ==> q == -((-a) / b)
  {
    var mag := Abs(a) / Abs(b);
    if (a < 0) != (b < 0) then -mag else mag
  }

  /**
   * Truncating division, characterised by its remainder: smaller than the
   * divisor in magnitude, and zero or of the dividend's sign.
   */
  lemma GoDivTruncates(a: int, b: int)
    requires b != 0
    ensures var q := GoDiv(a, b);
      Abs(a - q * b) < Abs(b) && (a - q * b == 0 || (a - q * b < 0 <==> a < 0))
  {
    var m := Abs(a) / Abs(b);
    var r := Abs(a) % Abs(b);
    assert Abs(a) == m * Abs(b) + r && 0 <= r < Abs(b);
    if a >= 0 && b > 0 {
      assert a - m * b == r;
    } else if a >= 0 {
      assert a - (-m) * b == r;
    } else if b > 0 {
      assert a - (-m) * b == -r;
    } else {
      assert a - m * b == -r;
    }
  }

  const Width: int := 640
  const Height: int := 320
  const CardPadding: int := 28
  const HeaderHeight: int := 24
  const HeaderGap: int := 18
  const BarHeight: int := 14
  const BarGap: int := 22
  const TileHeight: int := 72
  const TileGap: int := 16
  const FooterHeight: int := 28
  const NoteMargin: int := 18

  /** The bar and the grid share the card's inner width. */
  const BarX: int := CardPadding
  const BarWidth: int := Width - CardPadding * 2

  /** One coloured slice of the usage bar, for the entry at rank `index`. */
  datatype Segment = Segment(index: nat, x: int, width: int, color: string)

  /** One language tile: its box, accent colour, escaped name and byte count. */
  datatype Tile = Tile(x: int, y: int, width: int, height: int, color: string, text: string, bytes: int)

  /** The "Excluded: …" line under the grid. */
  datatype Footnote = Footnote(y: int, text: string)

  datatype Chart = Chart(
    cols: int, rows: int, topOffset: int, barY: int, segments: seq<Segment>,
    gridTop: int, tiles: seq<Tile>, note: Option<Footnote>)

  /** The one error the writer reports before building anything. */
  datatype RenderError = NoLanguageData

  /** At most three tiles per row. */
  function Cols(n: int): int {
    if n < 3 then n else 3
  }

  /** `(n + cols - 1) / cols`: rows needed for `n` tiles. */
  function Rows(n: int, cols: int): (rows: int)
    requires 0 < cols
    requires 0 <= n
    ensures (rows - 1) * cols < n <= rows * cols || (n == 0 && rows == 0)
  {
    (n + cols - 1) / cols
  }

  function GridHeight(rows: int): int {
    rows * TileHeight + (rows - 1) * TileGap
  }

  function ContentHeight(rows: int, hasNote: bool): int {
    HeaderHeight + HeaderGap + BarHeight + BarGap + GridHeight(rows)
    + (if hasNote then FooterHeight else 0)
  }

  /** Centres the content vertically, but never closer than the padding to the top. */
  function TopOffset(content: int): (top: int)
    ensures top >= CardPadding
    ensures Height - content >= 2 * CardPadding ==> top * 2 <= Height - content <= top * 2 + 1
    ensures Height - content < 2 * CardPadding ==> top == CardPadding
  {
    var t := GoDiv(Height - content, 2);
    if t < CardPadding then CardPadding else t
  }

  /**
   * Truncation and Dafny's floor division differ only on a negative
   * numerator, and there both fall below the padding, so the clamp hides the
   * difference.
   */
  lemma TopOffsetAgreesWithFloor(content: int)
    ensures TopOffset(content) == (var t := (Height - content) / 2; if t < CardPadding then CardPadding else t)
  {
  }

  function TileWidth(cols: int): int
    requires 0 < cols
  {
    (BarWidth - (cols - 1) * TileGap) / cols
  }

  /** Left edge of the tile at rank `i`: column `i % cols`. */
  function TileX(i: nat, cols: int): (x: int)
    requires 1 <= cols <= 3
    ensures CardPadding <= x && x + TileWidth(cols) <= CardPadding + BarWidth
  {
    CardPadding + (i % cols) * (TileWidth(cols) + TileGap)
  }

  /** Top edge of the tile at rank `i`: row `i / cols`. */
  function TileY(i: nat, cols: int, gridTop: int): (y: int)
    requires 1 <= cols <= 3
    ensures gridTop <= y
  {
    gridTop + (i / cols) * (TileHeight + TileGap)
  }

  /** The tile at rank `i`, laid out row by row. */
  function TileAt(ranked: seq<LangStat>, i: nat, cols: int, gridTop: int): (t: Tile)
    requires i < |ranked|
    requires 1 <= cols <= 3
    ensures CardPadding <= t.x && t.x + t.width <= CardPadding + BarWidth
    ensures t.width == TileWidth(cols) && t.height == TileHeight
    ensures gridTop <= t.y
    ensures t.text == EscapeText(ranked[i].lang) && t.bytes == ranked[i].bytes
    ensures t.color == EntryColor(ranked[i].lang, i)
  {
    Tile(TileX(i, cols), TileY(i, cols, gridTop), TileWidth(cols), TileHeight,
         EntryColor(ranked[i].lang, i), EscapeText(ranked[i].lang), ranked[i].bytes)
  }

  /** Bar width of one entry; Go computes it in floating point and truncates. */
  function SegmentWidth(bytes: int, total: int): int
    requires total != 0
  {
    GoDiv(BarWidth * bytes, total)
  }

  /** The width of every entry, in rank order. */
  function Widths(ranked: seq<LangStat>, total: int): (ws: seq<int>)
    requires total != 0
    ensures |ws| == |ranked|
    ensures forall i :: 0 <= i < |ranked| ==> ws[i] == SegmentWidth(ranked[i].bytes, total)
  {
    seq(|ranked|, i requires 0 <= i < |ranked| => SegmentWidth(ranked[i].bytes, total))
  }

  /** The horizontal extent of the segment drawn for the entry at rank `index`. */
  datatype Span = Span(index: nat, x: int, width: int)

  /**
   * The segment loop from rank `i` on, the next segment starting at
   * `accumX`: entries of width zero are skipped, and the last entry, if
   * drawn, stretches to the bar's right edge.
   */
  function Spans(ws: seq<int>, i: nat, accumX: int): (spans: seq<Span>)
    requires i <= |ws|
    ensures forall k :: 0 <= k < |spans| ==> i <= spans[k].index < |ws| && ws[spans[k].index] != 0
    ensures forall k :: 0 <= k < |spans| && spans[k].index < |ws| - 1 ==> spans[k].width == ws[spans[k].index]
    decreases |ws| - i
  {
    if i == |ws| then []
    else if ws[i] == 0 then Spans(ws, i + 1, accumX)
    else
      var width := if i == |ws| - 1 then BarX + BarWidth - accumX else ws[i];
      [Span(i, accumX, width)] + Spans(ws, i + 1, accumX + width)
  }

  /** The spans start at `start`, follow rank order and abut. */
  predicate Abutting(spans: seq<Span>, start: int) {
    (|spans| > 0 ==> spans[0].x == start)
    && forall k :: 0 <= k < |spans| - 1 ==>
         spans[k].index < spans[k + 1].index && spans[k + 1].x == spans[k].x + spans[k].width
  }

  lemma AbuttingCons(head: Span, rest: seq<Span>)
    requires Abutting(rest, head.x + head.width)
    requires |rest| > 0 ==> head.index < rest[0].index
    ensures Abutting([head] + rest, head.x)
  {
    var spans := [head] + rest;
    forall k | 0 <= k < |spans| - 1
      ensures spans[k].index < spans[k + 1].index && spans[k + 1].x == spans[k].x + spans[k].width
    {
      assert spans[k + 1] == rest[k];
      if k > 0 {
        assert spans[k] == rest[k - 1];
      }
    }
  }

  /** Spans follow rank order and abut: each starts where the previous one ends. */
  lemma {:induction false} SpansContiguous(ws: seq<int>, i: nat, accumX: int)
    requires i <= |ws|
    ensures Abutting(Spans(ws, i, accumX), accumX)
    decreases |ws| - i
  {
    if i < |ws| {
      if ws[i] == 0 {
        assert Spans(ws, i, accumX) == Spans(ws, i + 1, accumX);
        SpansContiguous(ws, i + 1, accumX);
      } else {
        var width := if i == |ws| - 1 then BarX + BarWidth - accumX else ws[i];
        var rest := Spans(ws, i + 1, accumX + width);
        assert Spans(ws, i, accumX) == [Span(i, accumX, width)] + rest;
        SpansContiguous(ws, i + 1, accumX + width);
        AbuttingCons(Span(i, accumX, width), rest);
      }
    }
  }

  predicate HasSpanFor(spans: seq<Span>, j: int) {
    exists k :: 0 <= k < |spans| && spans[k].index == j
  }

  /** Every entry of non-zero width gets a span. */
  lemma {:induction false} SpansCoverNonZero(ws: seq<int>, i: nat, accumX: int, j: int)
    requires i <= j < |ws|
    requires ws[j] != 0
    ensures HasSpanFor(Spans(ws, i, accumX), j)
    decreases |ws| - i
  {
    var spans := Spans(ws, i, accumX);
    if ws[i] == 0 {
      SpansCoverNonZero(ws, i + 1, accumX, j);
    } else {
      var width := if i == |ws| - 1 then BarX + BarWidth - accumX else ws[i];
      var rest := Spans(ws, i + 1, accumX + width);
      assert spans == [Span(i, accumX, width)] + rest;
      if j == i {
        assert spans[0].index == j;
      } else {
        SpansCoverNonZero(ws, i + 1, accumX + width, j);
        var k :| 0 <= k < |rest| && rest[k].index == j;
        assert spans[k + 1] == rest[k];
      }
    }
  }

  /** The last span is the one for rank `last` and ends at the bar's right edge. */
  predicate EndsAtEdge(spans: seq<Span>, last: int) {
    |spans| > 0 && spans[|spans| - 1].index == last
    && spans[|spans| - 1].x + spans[|spans| - 1].width == BarX + BarWidth
  }

  lemma EndsAtEdgeCons(head: Span, rest: seq<Span>, last: int)
    requires EndsAtEdge(rest, last)
    ensures EndsAtEdge([head] + rest, last)
  {
    assert ([head] + rest)[|rest|] == rest[|rest| - 1];
  }

  /** When the last entry is drawn, the bar ends exactly at its right edge. */
  lemma {:induction false} SpansReachEdge(ws: seq<int>, i: nat, accumX: int)
    requires i < |ws|
    requires ws[|ws| - 1] != 0
    ensures EndsAtEdge(Spans(ws, i, accumX), |ws| - 1)
    decreases |ws| - i
  {
    if i == |ws| - 1 {
      assert Spans(ws, i + 1, BarX + BarWidth) == [];
      assert Spans(ws, i, accumX) == [Span(i, accumX, BarX + BarWidth - accumX)];
    } else if ws[i] == 0 {
      SpansReachEdge(ws, i + 1, accumX);
    } else {
      SpansReachEdge(ws, i + 1, accumX + ws[i]);
      EndsAtEdgeCons(Span(i, accumX, ws[i]), Spans(ws, i + 1, accumX + ws[i]), |ws| - 1);
    }
  }

  /** Sum of a sequence of widths. */
  function IntSum(s: seq<int>): int
  {
    if |s| == 0 then 0 else s[0] + IntSum(s[1..])
  }

  predicate AllNonNegative(s: seq<int>) {
    forall i :: 0 <= i < |s| ==> s[i] >= 0
  }

  lemma {:induction false} IntSumNonNegative(s: seq<int>)
    requires AllNonNegative(s)
    ensures IntSum(s) >= 0
    decreases |s|
  {
    if |s| > 0 {
      IntSumNonNegative(s[1..]);
    }
  }

  /** Every span is at least one unit wide and lies between `lo` and the bar's right edge. */
  predicate InsideBar(spans: seq<Span>, lo: int) {
    forall k :: 0 <= k < |spans| ==>
      spans[k].width >= 1 && lo <= spans[k].x && spans[k].x + spans[k].width <= BarX + BarWidth
  }

  /**
   * With non-negative widths that fit between `accumX` and the right edge,
   * every span is at least one unit wide and lies inside the bar.
   */
  lemma {:induction false} SpansInside(ws: seq<int>, i: nat, accumX: int)
    requires i <= |ws|
    requires AllNonNegative(ws)
    requires BarX <= accumX && accumX + IntSum(ws[i..]) <= BarX + BarWidth
    ensures InsideBar(Spans(ws, i, accumX), accumX)
    decreases |ws| - i
  {
    if i < |ws| {
      SumStep(ws, i);
      if ws[i] == 0 {
        assert Spans(ws, i, accumX) == Spans(ws, i + 1, accumX);
        SpansInside(ws, i + 1, accumX);
      } else if i == |ws| - 1 {
        assert ws[i + 1..] == [];
        assert Spans(ws, i + 1, BarX + BarWidth) == [];
        assert Spans(ws, i, accumX) == [Span(i, accumX, BarX + BarWidth - accumX)];
      } else {
        IntSumNonNegative(ws[i + 1..]);
        var rest := Spans(ws, i + 1, accumX + ws[i]);
        assert Spans(ws, i, accumX) == [Span(i, accumX, ws[i])] + rest;
        SpansInside(ws, i + 1, accumX + ws[i]);
        InsideCons(Span(i, accumX, ws[i]), rest, accumX, accumX + ws[i]);
      }
    }
  }

  lemma SumStep(ws: seq<int>, i: nat)
    requires i < |ws|
    requires AllNonNegative(ws)
    ensures IntSum(ws[i..]) == ws[i] + IntSum(ws[i + 1..])
    ensures AllNonNegative(ws[i + 1..])
  {
    assert ws[i..][0] == ws[i] && ws[i..][1..] == ws[i + 1..];
  }

  lemma InsideCons(head: Span, rest: seq<Span>, lo: int, next: int)
    requires head.width >= 1 && lo <= head.x && head.x + head.width <= BarX + BarWidth
    requires lo <= next && InsideBar(rest, next)
    ensures InsideBar([head] + rest, lo)
  {
    var spans := [head] + rest;
    forall k | 0 <= k < |spans|
      ensures spans[k].width >= 1 && lo <= spans[k].x && spans[k].x + spans[k].width <= BarX + BarWidth
    {
      if k > 0 {
        assert spans[k] == rest[k - 1];
      }
    }
  }

  /** `a * t <= c * t` with `t > 0` cancels. */
  lemma MulCancel(a: int, c: int, t: int)
    requires t > 0 && a * t <= c * t
    ensures a <= c
  {
  }

  /** A truncated width of a non-negative count undershoots its exact share. */
  lemma WidthUndershoots(bytes: int, total: int)
    requires total > 0 && bytes >= 0
    ensures 0 <= SegmentWidth(bytes, total)
    ensures SegmentWidth(bytes, total) * total <= BarWidth * bytes
  {
    var a := BarWidth * bytes;
    assert SegmentWidth(bytes, total) == a / total;
  }

  /** A width is the largest whole number of units not exceeding the entry's share of the bar. */
  lemma WidthIsFloorShare(bytes: int, total: int)
    requires total > 0 && bytes >= 0
    ensures var w := SegmentWidth(bytes, total);
      0 <= w && w * total <= BarWidth * bytes < (w + 1) * total
  {
    var a := BarWidth * bytes;
    assert SegmentWidth(bytes, total) == a / total;
    assert a == (a / total) * total + a % total;
  }

  /** Every entry's width is the floor of its share `BarWidth * bytes / total`. */
  lemma WidthsAreShares(ranked: seq<LangStat>, total: int)
    requires total > 0 && NonNegative(ranked)
    ensures var ws := Widths(ranked, total);
      |ws| == |ranked|
      && forall i :: 0 <= i < |ws| ==>
           0 <= ws[i] && ws[i] * total <= BarWidth * ranked[i].bytes < (ws[i] + 1) * total
  {
    var ws := Widths(ranked, total);
    forall i | 0 <= i < |ws|
      ensures 0 <= ws[i] && ws[i] * total <= BarWidth * ranked[i].bytes < (ws[i] + 1) * total
    {
      WidthIsFloorShare(ranked[i].bytes, total);
    }
  }

  /** Summed over the entries from rank `i` on, the truncated widths undershoot too. */
  lemma {:induction false} WidthsUndershoot(ranked: seq<LangStat>, total: int, i: nat)
    requires total > 0 && NonNegative(ranked)
    requires i <= |ranked|
    ensures var ws := Widths(ranked, total);
      AllNonNegative(ws[i..]) && IntSum(ws[i..]) * total <= BarWidth * Sum(ranked[i..])
    decreases |ranked| - i
  {
    var ws := Widths(ranked, total);
    if i < |ranked| {
      WidthsUndershoot(ranked, total, i + 1);
      WidthUndershoots(ranked[i].bytes, total);
      assert ws[i..][0] == ws[i] && ws[i..][1..] == ws[i + 1..];
      assert ranked[i..][0] == ranked[i] && ranked[i..][1..] == ranked[i + 1..];
      var rest := IntSum(ws[i + 1..]);
      assert IntSum(ws[i..]) == ws[i] + rest;
      assert Sum(ranked[i..]) == ranked[i].bytes + Sum(ranked[i + 1..]);
      assert (ws[i] + rest) * total == ws[i] * total + rest * total;
      assert BarWidth * (ranked[i].bytes + Sum(ranked[i + 1..]))
          == BarWidth * ranked[i].bytes + BarWidth * Sum(ranked[i + 1..]);
    } else {
      assert ws[i..] == [];
    }
  }

  /** The widths of a chart with positive total never add up to more than the bar. */
  lemma WidthsFit(ranked: seq<LangStat>)
    requires NonNegative(ranked) && Sum(ranked) > 0
    ensures var ws := Widths(ranked, Sum(ranked));
      AllNonNegative(ws) && IntSum(ws) <= BarWidth
  {
    var total := Sum(ranked);
    WidthsUndershoot(ranked, total, 0);
    assert ranked[0..] == ranked;
    var ws := Widths(ranked, total);
    assert ws[0..] == ws;
    MulCancel(IntSum(ws), BarWidth, total);
  }

  /** The coloured segments of the usage bar. */
  function BarSegments(ranked: seq<LangStat>, total: int): (segs: seq<Segment>)
    requires total != 0
    ensures forall k :: 0 <= k < |segs| ==>
      segs[k].index < |ranked| && segs[k].color == EntryColor(ranked[segs[k].index].lang, segs[k].index)
  {
    var spans := Spans(Widths(ranked, total), 0, BarX);
    seq(|spans|, k requires 0 <= k < |spans| =>
      Segment(spans[k].index, spans[k].x, spans[k].width,
              EntryColor(ranked[spans[k].index].lang, spans[k].index)))
  }

  /** The footnote's baseline: just below the grid, but never past the card's lower margin. */
  function NoteY(gridBottom: int): (y: int)
    ensures y <= Height - NoteMargin
    ensures y == gridBottom + 20 || y == Height - NoteMargin
    ensures gridBottom + 20 <= Height - NoteMargin ==> y == gridBottom + 20
  {
    var y := gridBottom + 20;
    if y > Height - NoteMargin then Height - NoteMargin else y
  }

  /** The text of the footnote, before escaping. */
  function NoteText(excluded: seq<string>): string {
    "Excluded: " + Join(excluded, ", ")
  }

  /** What every chart `WriteSvg` builds looks like. */
  ghost predicate WellLaidOut(ranked: seq<LangStat>, excluded: seq<string>, c: Chart) {
    var n := |ranked|;
    && c.cols == Cols(n) && 1 <= c.cols <= 3
    && (c.rows - 1) * c.cols < n <= c.rows * c.cols
    && c.topOffset == TopOffset(ContentHeight(c.rows, |excluded| > 0))
    && c.topOffset >= CardPadding
    && c.barY == c.topOffset + HeaderHeight + HeaderGap
    && c.gridTop == c.barY + BarHeight + BarGap
    && |c.tiles| == n
    && (forall i :: 0 <= i < n ==> c.tiles[i] == TileAt(ranked, i, c.cols, c.gridTop))
    && Sum(ranked) != 0 && c.segments == BarSegments(ranked, Sum(ranked))
    && |c.segments| <= n
    && (c.note.Some? <==> |excluded| > 0)
    && (c.note.Some? ==>
          c.note.value.y == NoteY(c.gridTop + GridHeight(c.rows))
          && c.note.value.y <= Height - NoteMargin
          && c.note.value.text == EscapeText(NoteText(excluded)))
  }

  /**
   * `writeSVG` up to the SVG text: refuses an empty ranking or a zero total,
   * otherwise lays out the bar, the tiles and the optional footnote.
   */
  function WriteSvg(ranked: seq<LangStat>, excluded: seq<string>): (res: Result<Chart, RenderError>)
    ensures res.Failure? <==> |ranked| == 0 || Sum(ranked) == 0
    ensures res.Success? ==> WellLaidOut(ranked, excluded, res.value)
  {
    var total := Sum(ranked);
    if |ranked| == 0 || total == 0 then Failure(NoLanguageData)
    else
      var n := |ranked|;
      var cols := Cols(n);
      var rows := Rows(n, cols);
      var top := TopOffset(ContentHeight(rows, |excluded| > 0));
      var barY := top + HeaderHeight + HeaderGap;
      var gridTop := barY + BarHeight + BarGap;
      var tiles := seq(n, i requires 0 <= i < n => TileAt(ranked, i, cols, gridTop));
      var note := if |excluded| > 0
        then Some(Footnote(NoteY(gridTop + GridHeight(rows)), EscapeText(NoteText(excluded))))
        else None;
      var segs := BarSegments(ranked, total);
      SegmentsBounded(ranked, total);
      Success(Chart(cols, rows, top, barY, segs, gridTop, tiles, note))
  }

  lemma SegmentsBounded(ranked: seq<LangStat>, total: int)
    requires total != 0
    ensures |BarSegments(ranked, total)| <= |ranked|
  {
    SpansBounded(Widths(ranked, total), 0, BarX);
  }

  lemma {:induction false} SpansBounded(ws: seq<int>, i: nat, accumX: int)
    requires i <= |ws|
    ensures |Spans(ws, i, accumX)| <= |ws| - i
    decreases |ws| - i
  {
    if i < |ws| {
      var width := if i == |ws| - 1 then BarX + BarWidth - accumX else ws[i];
      SpansBounded(ws, i + 1, accumX);
      SpansBounded(ws, i + 1, accumX + width);
    }
  }

  /** Each segment is the span at the same position, coloured. */
  lemma SegmentsFromSpans(ranked: seq<LangStat>, total: int)
    requires total != 0
    ensures var spans := Spans(Widths(ranked, total), 0, BarX);
      var segs := BarSegments(ranked, total);
      |segs| == |spans|
      && forall k :: 0 <= k < |segs| ==>
           segs[k].index == spans[k].index && segs[k].x == spans[k].x && segs[k].width == spans[k].width
  {
  }

  /** The segments start at the bar's left edge, follow rank order and abut. */
  lemma BarContiguous(ranked: seq<LangStat>, total: int)
    requires total != 0
    ensures var segs := BarSegments(ranked, total);
      && (|segs| > 0 ==> segs[0].x == BarX)
      && (forall k :: 0 <= k < |segs| - 1 ==>
            segs[k].index < segs[k + 1].index && segs[k + 1].x == segs[k].x + segs[k].width)
  {
    SegmentsFromSpans(ranked, total);
    SpansContiguous(Widths(ranked, total), 0, BarX);
  }

  /** With non-negative counts every segment is at least one unit wide and stays inside the bar. */
  lemma BarInside(ranked: seq<LangStat>)
    requires NonNegative(ranked) && Sum(ranked) > 0
    ensures var segs := BarSegments(ranked, Sum(ranked));
      forall k :: 0 <= k < |segs| ==>
        segs[k].width >= 1 && BarX <= segs[k].x && segs[k].x + segs[k].width <= BarX + BarWidth
  {
    var ws := Widths(ranked, Sum(ranked));
    SegmentsFromSpans(ranked, Sum(ranked));
    WidthsFit(ranked);
    assert ws[0..] == ws;
    SpansInside(ws, 0, BarX);
  }

  /** Every entry of non-zero width has a segment. */
  lemma BarCoversNonZero(ranked: seq<LangStat>, total: int, j: int)
    requires total != 0
    requires 0 <= j < |ranked| && SegmentWidth(ranked[j].bytes, total) != 0
    ensures var segs := BarSegments(ranked, total);
      exists k :: 0 <= k < |segs| && segs[k].index == j
  {
    var ws := Widths(ranked, total);
    var spans := Spans(ws, 0, BarX);
    SegmentsFromSpans(ranked, total);
    SpansCoverNonZero(ws, 0, BarX, j);
    var k :| 0 <= k < |spans| && spans[k].index == j;
    assert BarSegments(ranked, total)[k].index == j;
  }

  /** When the last entry has non-zero width, the bar ends at its right edge. */
  lemma BarReachesEdge(ranked: seq<LangStat>, total: int)
    requires total != 0
    requires |ranked| > 0 && SegmentWidth(ranked[|ranked| - 1].bytes, total) != 0
    ensures var segs := BarSegments(ranked, total);
      |segs| > 0 && segs[|segs| - 1].index == |ranked| - 1
      && segs[|segs| - 1].x + segs[|segs| - 1].width == BarX + BarWidth
  {
    var ws := Widths(ranked, total);
    var spans := Spans(ws, 0, BarX);
    SegmentsFromSpans(ranked, total);
    SpansReachEdge(ws, 0, BarX);
    var segs := BarSegments(ranked, total);
    assert segs[|segs| - 1].x == spans[|spans| - 1].x;
  }

  /**
   * Truncation can leave the bar short: with 1000 bytes of Go and 1 of
   * Python, Go's segment is 583 wide and Python's rounds to zero and is
   * skipped, so the bar stops one unit before its right edge.
   */
  lemma BarGapExample()
    ensures var c := WriteSvg([LangStat("Go", 1000), LangStat("Python", 1)], []).value;
      |c.segments| == 1 && c.segments[0].x + c.segments[0].width == BarX + BarWidth - 1
  {
    var ranked := [LangStat("Go", 1000), LangStat("Python", 1)];
    assert Sum(ranked) == 1001;
    var ws := Widths(ranked, 1001);
    assert ws[0] == 583 && ws[1] == 0;
    assert Spans(ws, 2, BarX + 583) == [];
    assert Spans(ws, 1, BarX + 583) == [];
    assert Spans(ws, 0, BarX) == [Span(0, BarX, 583)];
    SegmentsFromSpans(ranked, 1001);
  }

  /** Every span ends strictly before the bar's right edge. */
  predicate ShortOfEdge(spans: seq<Span>) {
    forall k :: 0 <= k < |spans| ==> spans[k].x + spans[k].width < BarX + BarWidth
  }

  /**
   * When the last width is zero, no span stretches to the edge, so the spans
   * end where the widths from `accumX` on add up to.
   */
  lemma {:induction false} SpansShort(ws: seq<int>, i: nat, accumX: int)
    requires i <= |ws| && |ws| > 0 && ws[|ws| - 1] == 0
    requires AllNonNegative(ws)
    requires accumX + IntSum(ws[i..]) < BarX + BarWidth
    ensures ShortOfEdge(Spans(ws, i, accumX))
    decreases |ws| - i
  {
    if i < |ws| {
      SumStep(ws, i);
      IntSumNonNegative(ws[i + 1..]);
      if ws[i] == 0 {
        SpansShort(ws, i + 1, accumX);
      } else {
        var rest := Spans(ws, i + 1, accumX + ws[i]);
        assert Spans(ws, i, accumX) == [Span(i, accumX, ws[i])] + rest;
        SpansShort(ws, i + 1, accumX + ws[i]);
        ShortCons(Span(i, accumX, ws[i]), rest);
      }
    }
  }

  lemma ShortCons(head: Span, rest: seq<Span>)
    requires head.x + head.width < BarX + BarWidth && ShortOfEdge(rest)
    ensures ShortOfEdge([head] + rest)
  {
    var spans := [head] + rest;
    forall k | 0 <= k < |spans|
      ensures spans[k].x + spans[k].width < BarX + BarWidth
    {
      if k > 0 {
        assert spans[k] == rest[k - 1];
      }
    }
  }

  /** One entry that undershoots plus a tail that undershoots strictly undershoots strictly. */
  lemma StrictStep(w: int, rest: int, bytes: int, restBytes: int, total: int)
    requires w * total <= BarWidth * bytes && rest * total < BarWidth * restBytes
    ensures (w + rest) * total < BarWidth * (bytes + restBytes)
  {
    assert (w + rest) * total == w * total + rest * total;
    assert BarWidth * (bytes + restBytes) == BarWidth * bytes + BarWidth * restBytes;
  }

  /** `a * t < c * t` with `t > 0` cancels. */
  lemma StrictCancel(a: int, c: int, t: int)
    requires t > 0 && a * t < c * t
    ensures a < c
  {
  }

  /**
   * When the last entry has bytes but its truncated width is zero, the
   * widths from rank `i` on fall strictly short of their exact share.
   */
  lemma {:induction false} WidthsUndershootStrictly(ranked: seq<LangStat>, total: int, i: nat)
    requires total > 0 && NonNegative(ranked)
    requires i < |ranked|
    requires ranked[|ranked| - 1].bytes > 0 && SegmentWidth(ranked[|ranked| - 1].bytes, total) == 0
    ensures var ws := Widths(ranked, total);
      IntSum(ws[i..]) * total < BarWidth * Sum(ranked[i..])
    decreases |ranked| - i
  {
    var ws := Widths(ranked, total);
    assert ws[i..][0] == ws[i] && ws[i..][1..] == ws[i + 1..];
    assert ranked[i..][0] == ranked[i] && ranked[i..][1..] == ranked[i + 1..];
    if i == |ranked| - 1 {
      assert ws[i + 1..] == [] && ranked[i + 1..] == [];
    } else {
      WidthsUndershootStrictly(ranked, total, i + 1);
      WidthUndershoots(ranked[i].bytes, total);
      StrictStep(ws[i], IntSum(ws[i + 1..]), ranked[i].bytes, Sum(ranked[i + 1..]), total);
    }
  }

  /**
   * When the last entry has bytes but rounds to width zero, it is skipped
   * and the other truncated widths add up to less than the bar, so the bar
   * always stops short of its right edge.
   */
  lemma BarStopsShort(ranked: seq<LangStat>)
    requires NonNegative(ranked) && Sum(ranked) > 0
    requires |ranked| > 0 && ranked[|ranked| - 1].bytes > 0
    requires SegmentWidth(ranked[|ranked| - 1].bytes, Sum(ranked)) == 0
    ensures var segs := BarSegments(ranked, Sum(ranked));
      forall k :: 0 <= k < |segs| ==> segs[k].x + segs[k].width < BarX + BarWidth
  {
    var total := Sum(ranked);
    var ws := Widths(ranked, total);
    WidthsUndershoot(ranked, total, 0);
    WidthsUndershootStrictly(ranked, total, 0);
    assert ranked[0..] == ranked && ws[0..] == ws;
    StrictCancel(IntSum(ws), BarWidth, total);
    SpansShort(ws, 0, BarX);
    SegmentsFromSpans(ranked, total);
  }

  /**
   * A last entry without bytes is skipped too. Whether the bar then reaches
   * its edge depends on the other widths: Go 1 and TeX 0 fill all 584 units;
   * Go 2, Python 1 and TeX 0 truncate to 389 and 194 and stop one unit short.
   */
  lemma BarZeroLastExamples()
    ensures var c := WriteSvg([LangStat("Go", 1), LangStat("TeX", 0)], []).value;
      |c.segments| == 1 && c.segments[0].x + c.segments[0].width == BarX + BarWidth
    ensures var c := WriteSvg([LangStat("Go", 2), LangStat("Python", 1), LangStat("TeX", 0)], []).value;
      |c.segments| == 2 && c.segments[1].x + c.segments[1].width == BarX + BarWidth - 1
  {
    var one := [LangStat("Go", 1), LangStat("TeX", 0)];
    assert Sum(one) == 1;
    var ws1 := Widths(one, 1);
    assert ws1[0] == 584 && ws1[1] == 0;
    assert Spans(ws1, 1, BarX + 584) == [];
    assert Spans(ws1, 0, BarX) == [Span(0, BarX, 584)];
    SegmentsFromSpans(one, 1);
    var two := [LangStat("Go", 2), LangStat("Python", 1), LangStat("TeX", 0)];
    assert Sum(two) == 3;
    var ws2 := Widths(two, 3);
    assert ws2[0] == 389 && ws2[1] == 194 && ws2[2] == 0;
    assert Spans(ws2, 2, BarX + 583) == [];
    assert Spans(ws2, 1, BarX + 389) == [Span(1, BarX + 389, 194)];
    assert Spans(ws2, 0, BarX) == [Span(0, BarX, 389), Span(1, BarX + 389, 194)];
    SegmentsFromSpans(two, 3);
  }

  /**
   * Two different tiles never overlap: they sit in different columns or in
   * different rows, at least a gap apart.
   */
  lemma TilesDisjoint(cols: int, gridTop: int, i: nat, j: nat)
    requires 1 <= cols <= 3
    requires i != j
    ensures var w := TileWidth(cols);
      var xi := TileX(i, cols); var xj := TileX(j, cols);
      var yi := TileY(i, cols, gridTop); var yj := TileY(j, cols, gridTop);
      xi + w + TileGap <= xj || xj + w + TileGap <= xi
      || yi + TileHeight + TileGap <= yj || yj + TileHeight + TileGap <= yi
  {
    RowOrColumnDiffers(cols, i, j);
    var w := TileWidth(cols);
    var ri, rj := i / cols, j / cols;
    var ci, cj := i % cols, j % cols;
    if ri < rj {
      assert TileY(j, cols, gridTop) - TileY(i, cols, gridTop) == (rj - ri) * (TileHeight + TileGap);
    } else if rj < ri {
      assert TileY(i, cols, gridTop) - TileY(j, cols, gridTop) == (ri - rj) * (TileHeight + TileGap);
    } else if ci < cj {
      assert TileX(j, cols) - TileX(i, cols) == (cj - ci) * (w + TileGap);
    } else {
      assert TileX(i, cols) - TileX(j, cols) == (ci - cj) * (w + TileGap);
    }
  }

  /** Distinct ranks differ in row or in column. */
  lemma RowOrColumnDiffers(cols: int, i: nat, j: nat)
    requires 1 <= cols <= 3
    requires i != j
    ensures i / cols != j / cols || i % cols != j % cols
  {
    if cols == 2 {
      assert i == 2 * (i / 2) + i % 2 && j == 2 * (j / 2) + j % 2;
    } else if cols == 3 {
      assert i == 3 * (i / 3) + i % 3 && j == 3 * (j / 3) + j % 3;
    }
  }

  /**
   * The tiles are laid out left to right, then top to bottom: the first tile
   * sits at the grid's top-left corner, the next rank goes one tile and one
   * gap to the right, and after the last column it wraps to the start of the
   * next row.
   */
  lemma {:induction false} TilesRowMajor(cols: int, gridTop: int, i: nat)
    requires 1 <= cols <= 3
    ensures TileX(0, cols) == CardPadding && TileY(0, cols, gridTop) == gridTop
    ensures (i + 1) % cols != 0 ==>
      TileY(i + 1, cols, gridTop) == TileY(i, cols, gridTop)
      && TileX(i + 1, cols) == TileX(i, cols) + TileWidth(cols) + TileGap
    ensures (i + 1) % cols == 0 ==>
      TileX(i + 1, cols) == CardPadding
      && TileY(i + 1, cols, gridTop) == TileY(i, cols, gridTop) + TileHeight + TileGap
  {
    var q, m := i / cols, i % cols;
    assert i == q * cols + m && 0 <= m < cols;
    if m + 1 < cols {
      assert i + 1 == q * cols + (m + 1);
      assert (i + 1) / cols == q && (i + 1) % cols == m + 1;
    } else {
      assert i + 1 == (q + 1) * cols;
      assert (i + 1) / cols == q + 1 && (i + 1) % cols == 0;
    }
  }

  /**
   * Every tile of a drawn chart lies within the grid's height, and the tile
   * of the last rank reaches the grid's bottom edge, so `GridHeight` is the
   * height the tiles actually take.
   */
  lemma TilesInGrid(ranked: seq<LangStat>, excluded: seq<string>, i: nat)
    requires WriteSvg(ranked, excluded).Success?
    requires i < |ranked|
    ensures var c := WriteSvg(ranked, excluded).value;
      c.gridTop <= c.tiles[i].y && c.tiles[i].y + c.tiles[i].height <= c.gridTop + GridHeight(c.rows)
    ensures var c := WriteSvg(ranked, excluded).value;
      i == |ranked| - 1 ==> c.tiles[i].y + c.tiles[i].height == c.gridTop + GridHeight(c.rows)
  {
    var c := WriteSvg(ranked, excluded).value;
    RowOfRank(i, |ranked|, c.cols, c.rows);
    assert c.tiles[i] == TileAt(ranked, i, c.cols, c.gridTop);
  }

  /** Rank `i` of `n` falls in one of the `rows` rows, the last rank in the last row. */
  lemma RowOfRank(i: nat, n: nat, cols: int, rows: int)
    requires 1 <= cols <= 3
    requires (rows - 1) * cols < n <= rows * cols
    requires i < n
    ensures i / cols < rows
    ensures i == n - 1 ==> i / cols == rows - 1
  {
    var q, m := i / cols, i % cols;
    assert i == q * cols + m && 0 <= m < cols;
  }

  /**
   * The grid stays clear of the card's lower padding exactly when there are
   * at most six entries, that is at most two rows; a longer ranking runs off
   * the bottom of the 320-high card.
   */
  lemma GridFitsIff(ranked: seq<LangStat>, excluded: seq<string>)
    requires WriteSvg(ranked, excluded).Success?
    ensures var c := WriteSvg(ranked, excluded).value;
      c.gridTop + GridHeight(c.rows) <= Height - CardPadding <==> |ranked| <= 6
    ensures var c := WriteSvg(ranked, excluded).value;
      c.gridTop + GridHeight(c.rows) <= Height <==> |ranked| <= 6
  {
    var c := WriteSvg(ranked, excluded).value;
    var n := |ranked|;
    assert c.rows == Rows(n, Cols(n));
    if n <= 6 {
      assert c.rows <= 2;
    } else {
      assert c.rows >= 3;
    }
  }

  /**
   * The content is centred vertically, to within one unit, exactly for one
   * row, or for two rows without a footnote; with a footnote, two rows are
   * two units too tall and the offset is clamped to the padding.
   */
  lemma CentredIff(ranked: seq<LangStat>, excluded: seq<string>)
    requires WriteSvg(ranked, excluded).Success?
    ensures var c := WriteSvg(ranked, excluded).value;
      var content := ContentHeight(c.rows, |excluded| > 0);
      (c.topOffset * 2 <= Height - content <= c.topOffset * 2 + 1)
      <==> (|ranked| <= 3 || (|ranked| <= 6 && |excluded| == 0))
  {
    var c := WriteSvg(ranked, excluded).value;
    var n := |ranked|;
    assert c.rows == Rows(n, Cols(n));
    if n <= 3 {
      assert c.rows == 1;
    } else if n <= 6 {
      assert c.rows == 2;
    } else {
      assert c.rows >= 3;
    }
  }

  /** With at most six entries the footnote sits 20 units under the grid, unclamped. */
  lemma NoteUnderGrid(ranked: seq<LangStat>, excluded: seq<string>)
    requires WriteSvg(ranked, excluded).Success?
    requires |ranked| <= 6 && |excluded| > 0
    ensures var c := WriteSvg(ranked, excluded).value;
      c.note.Some? && c.note.value.y == c.gridTop + GridHeight(c.rows) + 20
  {
    var c := WriteSvg(ranked, excluded).value;
    var n := |ranked|;
    assert c.rows == Rows(n, Cols(n));
    assert c.rows <= 2;
  }
}
