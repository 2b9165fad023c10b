/**
 * The Ranker and the Bucketizer: `rankLanguages` turns the aggregated
 * language map into a sequence ordered by descending byte count with ties
 * broken by ascending name, and `collapseOthers` keeps the first `top`
 * entries and may append one synthetic "Other" entry.
 */
module Ranking {
  import opened Sorting
  import opened Text

  /** One ranked entry (`langStat`). Byte counts are unbounded integers. */
  datatype LangStat = LangStat(lang: string, bytes: int)

  /** The `sort.Slice` comparator: more bytes first, equal bytes by ascending name. */
  predicate Before(a: LangStat, b: LangStat) {
    if a.bytes == b.bytes then Less(a.lang, b.lang) else a.bytes > b.bytes
  }

  /** The reflexive closure of `Before`, the order the sort establishes. */
  predicate RankLeq(a: LangStat, b: LangStat) {
    a == b || Before(a, b)
  }

  lemma BeforeIrreflexive(a: LangStat)
    ensures !Before(a, a)
  {
    LessIrreflexive(a.lang);
  }

  lemma BeforeTransitive(a: LangStat, b: LangStat, c: LangStat)
    requires Before(a, b) && Before(b, c)
    ensures Before(a, c)
  {
    if a.bytes == b.bytes == c.bytes {
      LessTransitive(a.lang, b.lang, c.lang);
    }
  }

  /** Entries that differ in name are always ordered one way or the other. */
  lemma BeforeConnected(a: LangStat, b: LangStat)
    requires a.lang != b.lang
    ensures Before(a, b) || Before(b, a)
  {
    LessTotal(a.lang, b.lang);
  }

  /** The comparator is a strict total order, so `RankLeq` is a total order. */
  lemma RankLeqTotalOrder()
    ensures TotalOrder(RankLeq)
  {
    forall a, b | RankLeq(a, b) && RankLeq(b, a)
      ensures a == b
    {
      if a != b {
        LessAsymmetric(a.lang, b.lang);
      }
    }
    forall a, b, c | RankLeq(a, b) && RankLeq(b, c)
      ensures RankLeq(a, c)
    {
      if a != b && b != c {
        BeforeTransitive(a, b, c);
      }
    }
    forall a, b
      ensures RankLeq(a, b) || RankLeq(b, a)
    {
      if a != b {
        if a.lang != b.lang {
          BeforeConnected(a, b);
        }
      }
    }
  }

  /** The entries of `total` in the map's iteration order (the loop at main.go:181). */
  function Entries(total: map<string, int>, order: seq<string>): (stats: seq<LangStat>)
    requires forall i :: 0 <= i < |order| ==> order[i] in total
    ensures |stats| == |order|
    ensures forall i :: 0 <= i < |order| ==> stats[i] == LangStat(order[i], total[order[i]])
  {
    seq(|order|, i requires 0 <= i < |order| => LangStat(order[i], total[order[i]]))
  }

  /** Visiting every key once lists every entry of the map once: one entry per key, each with its own count. */
  lemma EntriesListTheMap(total: map<string, int>, order: seq<string>)
    requires Enumerates(order, total.Keys)
    ensures var stats := Entries(total, order);
      && |stats| == |total|
      && NoDup(stats)
      && (forall e :: e in stats <==> e.lang in total && e.bytes == total[e.lang])
  {
    var stats := Entries(total, order);
    assert |order| == |total| by {
      assert Elements(order) == total.Keys;
      NoDupCard(order);
    }
    forall e: LangStat | e.lang in total && e.bytes == total[e.lang]
      ensures e in stats
    {
      var j :| 0 <= j < |order| && order[j] == e.lang;
      assert stats[j] == e;
    }
  }

  /**
   * What a ranking of `total` is: every entry of the map exactly once, each
   * neighbouring pair strictly ordered by the comparator.
   */
  ghost predicate IsRanking(total: map<string, int>, ranked: seq<LangStat>) {
    && |ranked| == |total|
    && (forall i :: 0 <= i < |ranked| ==> ranked[i].lang in total && ranked[i].bytes == total[ranked[i].lang])
    && (forall k :: k in total ==> LangStat(k, total[k]) in ranked)
    && (forall i :: 0 <= i < |ranked| - 1 ==> Before(ranked[i], ranked[i + 1]))
  }

  /**
   * `rankLanguages`: collects the entries in the map's iteration order `order`
   * and sorts them with the comparator.
   */
  function RankLanguages(total: map<string, int>, order: seq<string>): (ranked: seq<LangStat>)
    requires Enumerates(order, total.Keys)
    ensures |ranked| == |total|
    ensures forall i :: 0 <= i < |ranked| ==> ranked[i].lang in total && ranked[i].bytes == total[ranked[i].lang]
    ensures forall k :: k in total ==> LangStat(k, total[k]) in ranked
    ensures forall i :: 0 <= i < |ranked| - 1 ==> Before(ranked[i], ranked[i + 1])
  {
    RankLeqTotalOrder();
    var stats := Entries(total, order);
    var ranked := Sort(stats, RankLeq);
    RankedFacts(total, order, stats, ranked);
    ranked
  }

  lemma RankedFacts(total: map<string, int>, order: seq<string>, stats: seq<LangStat>, ranked: seq<LangStat>)
    requires Enumerates(order, total.Keys)
    requires stats == Entries(total, order)
    requires TotalOrder(RankLeq)
    requires multiset(ranked) == multiset(stats) && SortedBy(ranked, RankLeq)
    ensures |ranked| == |total|
    ensures forall i :: 0 <= i < |ranked| ==> ranked[i].lang in total && ranked[i].bytes == total[ranked[i].lang]
    ensures forall k :: k in total ==> LangStat(k, total[k]) in ranked
    ensures forall i :: 0 <= i < |ranked| - 1 ==> Before(ranked[i], ranked[i + 1])
  {
    assert |ranked| == |multiset(ranked)| == |multiset(stats)| == |stats|;
    assert |order| == |total| by {
      assert Elements(order) == total.Keys;
      NoDupCard(order);
    }
    assert NoDup(stats);
    PermutationKeepsNoDup(stats, ranked);
    forall i | 0 <= i < |ranked|
      ensures ranked[i].lang in total && ranked[i].bytes == total[ranked[i].lang]
    {
      assert ranked[i] in multiset(stats);
    }
    forall k | k in total
      ensures LangStat(k, total[k]) in ranked
    {
      var j :| 0 <= j < |order| && order[j] == k;
      assert stats[j] in multiset(ranked);
    }
  }

  /** A duplicate-free sequence has as many elements as its set of elements. */
  lemma {:induction false} NoDupCard(s: seq<string>)
    requires NoDup(s)
    ensures |Elements(s)| == |s|
  {
    if |s| > 0 {
      var t := s[..|s| - 1];
      assert NoDup(t);
      NoDupCard(t);
      assert s == t + [s[|s| - 1]];
      assert Elements(s) == Elements(t) + {s[|s| - 1]};
    }
  }

  /** A sequence whose neighbours are strictly ordered is strictly ordered throughout. */
  lemma {:induction false} ChainOrdered(ranked: seq<LangStat>, i: int, j: int)
    requires forall k :: 0 <= k < |ranked| - 1 ==> Before(ranked[k], ranked[k + 1])
    requires 0 <= i < j < |ranked|
    ensures Before(ranked[i], ranked[j])
    decreases j - i
  {
    if j > i + 1 {
      ChainOrdered(ranked, i + 1, j);
      BeforeTransitive(ranked[i], ranked[i + 1], ranked[j]);
    }
  }

  /** A map has exactly one ranking. */
  lemma RankingUnique(total: map<string, int>, r1: seq<LangStat>, r2: seq<LangStat>)
    requires IsRanking(total, r1) && IsRanking(total, r2)
    ensures r1 == r2
  {
    RankLeqTotalOrder();
    forall r | r == r1 || r == r2
      ensures SortedBy(r, RankLeq) && NoDup(r)
    {
      forall i, j | 0 <= i < j < |r|
        ensures Before(r[i], r[j])
      {
        ChainOrdered(r, i, j);
      }
      forall i, j | 0 <= i < j < |r|
        ensures r[i] != r[j]
      {
        BeforeIrreflexive(r[i]);
      }
    }
    var entries := set k | k in total :: LangStat(k, total[k]);
    assert Enumerates(r1, entries);
    assert Enumerates(r2, entries);
    EnumerationsPermute(r1, r2, entries);
    SortedUnique(r1, r2, RankLeq);
  }

  /**
   * The ranking does not depend on the map's iteration order, although
   * `sort.Slice` is not stable.
   */
  lemma RankDeterministic(total: map<string, int>, o1: seq<string>, o2: seq<string>)
    requires Enumerates(o1, total.Keys) && Enumerates(o2, total.Keys)
    ensures RankLanguages(total, o1) == RankLanguages(total, o2)
  {
    RankingUnique(total, RankLanguages(total, o1), RankLanguages(total, o2));
  }

  /** Sum of the byte counts. */
  function Sum(s: seq<LangStat>): int
  {
    if |s| == 0 then 0 else s[0].bytes + Sum(s[1..])
  }

  lemma {:induction false} SumConcat(a: seq<LangStat>, b: seq<LangStat>)
    ensures Sum(a + b) == Sum(a) + Sum(b)
    decreases |a|
  {
    if |a| > 0 {
      assert (a + b)[0] == a[0] && (a + b)[1..] == a[1..] + b;
      SumConcat(a[1..], b);
      assert Sum(a + b) == a[0].bytes + Sum(a[1..] + b);
    } else {
      assert a + b == b;
    }
  }

  predicate NonNegative(s: seq<LangStat>) {
    forall i :: 0 <= i < |s| ==> s[i].bytes >= 0
  }

  lemma {:induction false} SumNonNegative(s: seq<LangStat>)
    requires NonNegative(s)
    ensures Sum(s) >= 0
    decreases |s|
  {
    if |s| > 0 {
      SumNonNegative(s[1..]);
    }
  }

  /** Name of the synthetic bucket entry. */
  const OtherName: string := "Other"

  /**
   * `collapseOthers`: with `0 < top < |ranked|`, keeps the first `top`
   * entries and, when `showOther` holds and the dropped entries sum to more
   * than zero, appends one "Other" entry carrying that sum; otherwise the
   * input is returned as is.
   */
  function CollapseOthers(ranked: seq<LangStat>, top: int, showOther: bool): (r: seq<LangStat>)
    ensures top <= 0 || |ranked| <= top ==> r == ranked
    ensures 0 < top < |ranked| ==> |r| == top || |r| == top + 1
    ensures 0 < top < |ranked| ==> r[..top] == ranked[..top]
    ensures 0 < top < |ranked| && |r| == top + 1 ==> r[top] == LangStat(OtherName, Sum(ranked[top..]))
    ensures 0 < top < |ranked| ==> (|r| == top + 1 <==> showOther && Sum(ranked[top..]) > 0)
  {
    if top <= 0 || |ranked| <= top then ranked
    else
      var keep := ranked[..top];
      if !showOther then keep
      else
        var otherBytes := Sum(ranked[top..]);
        if otherBytes > 0 then keep + [LangStat(OtherName, otherBytes)] else keep
  }

  /**
   * With "Other" shown and no negative counts, bucketing loses no bytes: the
   * output sums to what the input sums to.
   */
  lemma CollapseConservesTotal(ranked: seq<LangStat>, top: int)
    requires NonNegative(ranked)
    ensures Sum(CollapseOthers(ranked, top, true)) == Sum(ranked)
  {
    if 0 < top < |ranked| {
      var r := CollapseOthers(ranked, top, true);
      assert ranked == ranked[..top] + ranked[top..];
      SumConcat(ranked[..top], ranked[top..]);
      SumNonNegative(ranked[top..]);
      if |r| == top + 1 {
        assert r == ranked[..top] + [r[top]];
        SumConcat(ranked[..top], [r[top]]);
      } else {
        assert r == ranked[..top];
      }
    }
  }

  /** Collapsing an already collapsed sequence with the same settings changes nothing. */
  lemma CollapseIdempotent(ranked: seq<LangStat>, top: int, showOther: bool)
    ensures CollapseOthers(CollapseOthers(ranked, top, showOther), top, showOther)
         == CollapseOthers(ranked, top, showOther)
  {
    var r := CollapseOthers(ranked, top, showOther);
    if 0 < top < |r| {
      assert |r| == top + 1;
      assert r[top..] == [r[top]];
      assert Sum(r[top..]) == r[top].bytes;
      assert r == r[..top] + [r[top]];
    }
  }

  /** The kept entries stay in ranking order; only the trailing "Other" entry may break it. */
  lemma CollapseKeepsOrder(ranked: seq<LangStat>, top: int, showOther: bool)
    requires forall i :: 0 <= i < |ranked| - 1 ==> Before(ranked[i], ranked[i + 1])
    ensures var r := CollapseOthers(ranked, top, showOther);
      forall i :: 0 <= i < |r| - 1 && i + 1 < |ranked| && (top <= 0 || i + 1 < top) ==> Before(r[i], r[i + 1])
  {
  }

  /** Bucketing keeps counts non-negative: kept entries are copied and "Other" is only added when positive. */
  lemma CollapseNonNegative(ranked: seq<LangStat>, top: int, showOther: bool)
    requires NonNegative(ranked)
    ensures NonNegative(CollapseOthers(ranked, top, showOther))
  {
    var r := CollapseOthers(ranked, top, showOther);
    if 0 < top < |ranked| {
      assert forall i :: 0 <= i < top ==> r[i] == r[..top][i] == ranked[i];
    }
  }

  /** The top-ranked entry survives bucketing. */
  lemma CollapseHead(ranked: seq<LangStat>, top: int, showOther: bool)
    requires |ranked| > 0
    ensures |CollapseOthers(ranked, top, showOther)| > 0
    ensures CollapseOthers(ranked, top, showOther)[0] == ranked[0]
  {
    var r := CollapseOthers(ranked, top, showOther);
    if 0 < top < |ranked| {
      assert r[..top][0] == ranked[0];
    }
  }

  lemma {:induction false} AllZeroSum(s: seq<LangStat>)
    requires forall i :: 0 <= i < |s| ==> s[i].bytes == 0
    ensures Sum(s) == 0
    decreases |s|
  {
    if |s| > 0 {
      AllZeroSum(s[1..]);
    }
  }

  /** Bucketing entries that are all zero yields entries that sum to zero. */
  lemma CollapseAllZero(ranked: seq<LangStat>, top: int, showOther: bool)
    requires forall i :: 0 <= i < |ranked| ==> ranked[i].bytes == 0
    ensures Sum(CollapseOthers(ranked, top, showOther)) == 0
  {
    var r := CollapseOthers(ranked, top, showOther);
    if 0 < top < |ranked| {
      AllZeroSum(ranked[top..]);
      assert r == ranked[..top];
    }
    AllZeroSum(r);
  }
}
