/**
 * The order in which `main` applies the core once the language totals are
 * known: drop the excluded languages, rank the rest, bucket the tail into
 * "Other" when a positive `top` is smaller than the ranking, and lay out the
 * chart with the removed terms as its footnote.
 */
module Pipeline {
  import opened Wrappers
  import opened Sorting
  import opened Ranking
  import opened Excludes
  import opened Layout

  /** The ranking `main` prints and draws. */
  function Shown(kept: map<string, int>, rankOrder: seq<string>, top: int, showOther: bool): (shown: seq<LangStat>)
    requires Enumerates(rankOrder, kept.Keys)
    ensures |shown| == 0 <==> |kept| == 0
    ensures 0 < top < |kept| ==> |shown| <= top + 1
    ensures top <= 0 || |kept| <= top ==> |shown| == |kept|
  {
    var ranked := RankLanguages(kept, rankOrder);
    if top > 0 && top < |ranked| then CollapseOthers(ranked, top, showOther) else ranked
  }

  /**
   * The chart `main` writes for the totals, the exclude terms, a top-N
   * setting and the show-other flag; `order` and `rankOrder` are the map
   * iteration orders before and after the excluded keys are deleted.
   */
  function Render(total: map<string, int>, excludes: seq<string>, order: seq<string>,
                  rankOrder: seq<string>, top: int, showOther: bool): (res: Result<Chart, RenderError>)
    requires Enumerates(order, total.Keys)
    requires Enumerates(rankOrder, ApplyExcludes(total, excludes, order).0.Keys)
    ensures res.Success? ==> (res.value.note.Some? <==> |ApplyExcludes(total, excludes, order).1| > 0)
  {
    var (kept, removed) := ApplyExcludes(total, excludes, order);
    WriteSvg(Shown(kept, rankOrder, top, showOther), removed)
  }

  predicate NonNegativeCounts(m: map<string, int>) {
    forall k :: k in m ==> m[k] >= 0
  }

  /** Some language has a positive count. */
  predicate SomePositive(m: map<string, int>) {
    exists k :: k in m && m[k] > 0
  }

  /** A head with a positive count and a non-negative rest sums to more than zero. */
  lemma PositiveHeadSum(s: seq<LangStat>)
    requires |s| > 0 && NonNegative(s) && s[0].bytes > 0
    ensures Sum(s) > 0
  {
    assert NonNegative(s[1..]);
    SumNonNegative(s[1..]);
  }

  /** `main`'s guard before bucketing only skips cases where bucketing changes nothing. */
  lemma ShownIsCollapsed(kept: map<string, int>, rankOrder: seq<string>, top: int, showOther: bool)
    requires Enumerates(rankOrder, kept.Keys)
    ensures Shown(kept, rankOrder, top, showOther) == CollapseOthers(RankLanguages(kept, rankOrder), top, showOther)
  {
  }

  /** With non-negative counts, what is shown sums to more than zero exactly when some kept language has bytes. */
  lemma ShownPositiveIff(kept: map<string, int>, rankOrder: seq<string>, top: int, showOther: bool)
    requires Enumerates(rankOrder, kept.Keys)
    requires NonNegativeCounts(kept)
    ensures var shown := Shown(kept, rankOrder, top, showOther);
      NonNegative(shown) && (Sum(shown) > 0 <==> SomePositive(kept))
  {
    var ranked := RankLanguages(kept, rankOrder);
    var shown := Shown(kept, rankOrder, top, showOther);
    ShownIsCollapsed(kept, rankOrder, top, showOther);
    assert NonNegative(ranked);
    CollapseNonNegative(ranked, top, showOther);
    if SomePositive(kept) {
      var k :| k in kept && kept[k] > 0;
      var j :| 0 <= j < |ranked| && ranked[j] == LangStat(k, kept[k]);
      if j > 0 {
        ChainOrdered(ranked, 0, j);
      }
      CollapseHead(ranked, top, showOther);
      PositiveHeadSum(shown);
    } else {
      assert forall i :: 0 <= i < |ranked| ==> ranked[i].bytes == 0;
      CollapseAllZero(ranked, top, showOther);
    }
  }

  /** Drawing what is shown fails exactly when no kept language has bytes. */
  lemma ShownChartFailsIff(kept: map<string, int>, rankOrder: seq<string>, top: int, showOther: bool,
                           removed: seq<string>)
    requires Enumerates(rankOrder, kept.Keys)
    requires NonNegativeCounts(kept)
    ensures WriteSvg(Shown(kept, rankOrder, top, showOther), removed).Failure? <==> !SomePositive(kept)
  {
    var shown := Shown(kept, rankOrder, top, showOther);
    ShownPositiveIff(kept, rankOrder, top, showOther);
    SumNonNegative(shown);
    if |shown| == 0 {
      assert kept == map[];
    }
    assert WriteSvg(shown, removed).Failure? <==> |shown| == 0 || Sum(shown) == 0;
  }

  /**
   * With non-negative totals, `main` fails to draw a chart exactly when no
   * language that survives the excludes has any bytes.
   */
  lemma RenderFailsIff(total: map<string, int>, excludes: seq<string>, order: seq<string>,
                       rankOrder: seq<string>, top: int, showOther: bool)
    requires Enumerates(order, total.Keys)
    requires Enumerates(rankOrder, ApplyExcludes(total, excludes, order).0.Keys)
    requires NonNegativeCounts(total)
    ensures Render(total, excludes, order, rankOrder, top, showOther).Failure?
        <==> !SomePositive(ApplyExcludes(total, excludes, order).0)
  {
    var res := ApplyExcludes(total, excludes, order);
    assert NonNegativeCounts(res.0);
    ShownChartFailsIff(res.0, rankOrder, top, showOther, res.1);
  }

  lemma SubsetCard(a: set<string>, b: set<string>)
    requires a <= b
    ensures |a| == |b| <==> a == b
  {
    DisjointUnionCard(a, b - a);
    assert a + (b - a) == b;
    if a != b {
      var x :| x in b && x !in a;
      assert x in b - a;
    }
  }

  /** Some term is reported exactly when some language matches an exclude term. */
  lemma ReportNonEmptyIff(total: map<string, int>, excludes: seq<string>, order: seq<string>)
    requires Enumerates(order, total.Keys)
    ensures |ApplyExcludes(total, excludes, order).1| > 0 <==> exists k :: k in total && Matches(k, excludes)
  {
    var res := ApplyExcludes(total, excludes, order);
    var kept := res.0;
    assert kept.Keys <= total.Keys;
    SubsetCard(kept.Keys, total.Keys);
    assert |kept.Keys| == |kept| && |total.Keys| == |total|;
    if exists k :: k in total && Matches(k, excludes) {
      var k :| k in total && Matches(k, excludes);
      assert k !in kept.Keys;
    } else {
      assert kept.Keys == total.Keys;
    }
  }

  /** The chart carries a footnote exactly when some language was excluded. */
  lemma RenderNotesExclusions(total: map<string, int>, excludes: seq<string>, order: seq<string>,
                              rankOrder: seq<string>, top: int, showOther: bool)
    requires Enumerates(order, total.Keys)
    requires Enumerates(rankOrder, ApplyExcludes(total, excludes, order).0.Keys)
    requires Render(total, excludes, order, rankOrder, top, showOther).Success?
    ensures Render(total, excludes, order, rankOrder, top, showOther).value.note.Some?
        <==> exists k :: k in total && Matches(k, excludes)
  {
    ReportNonEmptyIff(total, excludes, order);
  }
}
