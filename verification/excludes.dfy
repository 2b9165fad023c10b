/**
 * The Excluder (`applyExcludes`): deletes every language whose lower-cased
 * name equals a lower-cased exclude term and reports, sorted, the TERMS that
 * matched, spelled as the user typed them, one per deleted language.
 */
module Excludes {
  import opened Sorting
  import opened Text

  /** Some exclude term matches `lang` case-insensitively. */
  predicate Matches(lang: string, excludes: seq<string>) {
    exists i :: 0 <= i < |excludes| && Lower(excludes[i]) == Lower(lang)
  }

  /** No later term equals `excludes[i]` up to case. */
  predicate LastOfItsCase(excludes: seq<string>, i: int)
    requires 0 <= i < |excludes|
  {
    forall j :: i < j < |excludes| ==> Lower(excludes[j]) != Lower(excludes[i])
  }

  /** The keys of `norm` are the lower-cased terms. */
  ghost predicate KeysAreTerms(norm: map<string, string>, excludes: seq<string>) {
    forall key :: key in norm <==> exists i :: 0 <= i < |excludes| && Lower(excludes[i]) == key
  }

  /** Each value is a term as typed, filed under its own lower-cased form. */
  predicate ValuesAreTerms(norm: map<string, string>, excludes: seq<string>) {
    forall key :: key in norm ==> norm[key] in excludes && Lower(norm[key]) == key
  }

  /** The last term of each case class is the one kept. */
  predicate LastWins(norm: map<string, string>, excludes: seq<string>) {
    forall i :: 0 <= i < |excludes| && LastOfItsCase(excludes, i) ==>
      Lower(excludes[i]) in norm && norm[Lower(excludes[i])] == excludes[i]
  }

  /**
   * The `normalized` map: lower-cased term to the term as typed. Later terms
   * overwrite earlier ones, so of several terms equal up to case the last wins.
   */
  function Normalize(excludes: seq<string>): (norm: map<string, string>)
    ensures forall key :: key in norm <==> exists i :: 0 <= i < |excludes| && Lower(excludes[i]) == key
    ensures forall key :: key in norm ==> norm[key] in excludes && Lower(norm[key]) == key
    ensures forall i :: 0 <= i < |excludes| && LastOfItsCase(excludes, i) ==> norm[Lower(excludes[i])] == excludes[i]
  {
    if |excludes| == 0 then map[]
    else
      var n := |excludes| - 1;
      var prev := Normalize(excludes[..n]);
      var norm := prev[Lower(excludes[n]) := excludes[n]];
      NormalizeKeysStep(excludes, prev, norm);
      NormalizeValuesStep(excludes, prev, norm);
      NormalizeLastStep(excludes, prev, norm);
      norm
  }

  lemma NormalizeKeysStep(excludes: seq<string>, prev: map<string, string>, norm: map<string, string>)
    requires |excludes| > 0
    requires KeysAreTerms(prev, excludes[..|excludes| - 1])
    requires norm == prev[Lower(excludes[|excludes| - 1]) := excludes[|excludes| - 1]]
    ensures KeysAreTerms(norm, excludes)
  {
    var n := |excludes| - 1;
    var init := excludes[..n];
    forall key | key in norm
      ensures exists i :: 0 <= i < |excludes| && Lower(excludes[i]) == key
    {
      if key != Lower(excludes[n]) {
        var i :| 0 <= i < |init| && Lower(init[i]) == key;
        assert init[i] == excludes[i];
      }
    }
    forall key | exists i :: 0 <= i < |excludes| && Lower(excludes[i]) == key
      ensures key in norm
    {
      var i :| 0 <= i < |excludes| && Lower(excludes[i]) == key;
      if i < n {
        assert init[i] == excludes[i];
      }
    }
  }

  lemma NormalizeValuesStep(excludes: seq<string>, prev: map<string, string>, norm: map<string, string>)
    requires |excludes| > 0
    requires ValuesAreTerms(prev, excludes[..|excludes| - 1])
    requires norm == prev[Lower(excludes[|excludes| - 1]) := excludes[|excludes| - 1]]
    ensures ValuesAreTerms(norm, excludes)
  {
    var n := |excludes| - 1;
    var init := excludes[..n];
    forall key | key in norm
      ensures norm[key] in excludes && Lower(norm[key]) == key
    {
      if key != Lower(excludes[n]) {
        var i :| 0 <= i < n && init[i] == prev[key];
        assert excludes[i] == prev[key];
      }
    }
  }

  lemma NormalizeLastStep(excludes: seq<string>, prev: map<string, string>, norm: map<string, string>)
    requires |excludes| > 0
    requires LastWins(prev, excludes[..|excludes| - 1])
    requires norm == prev[Lower(excludes[|excludes| - 1]) := excludes[|excludes| - 1]]
    ensures LastWins(norm, excludes)
  {
    var n := |excludes| - 1;
    var init := excludes[..n];
    forall i | 0 <= i < |excludes| && LastOfItsCase(excludes, i)
      ensures Lower(excludes[i]) in norm && norm[Lower(excludes[i])] == excludes[i]
    {
      if i < n {
        LastOfItsCaseInit(excludes, i);
        assert init[i] == excludes[i];
      }
    }
  }

  /** A term that is last of its case stays so in a prefix holding it, and differs from the final term. */
  lemma LastOfItsCaseInit(excludes: seq<string>, i: int)
    requires 0 <= i < |excludes| - 1 && LastOfItsCase(excludes, i)
    ensures LastOfItsCase(excludes[..|excludes| - 1], i)
    ensures Lower(excludes[|excludes| - 1]) != Lower(excludes[i])
  {
    var init := excludes[..|excludes| - 1];
    forall j | i < j < |init|
      ensures Lower(init[j]) != Lower(init[i])
    {
      assert init[j] == excludes[j] && init[i] == excludes[i];
    }
  }

  /** The terms recorded for the deleted languages, in the map's iteration order `order`. */
  function Collect(order: seq<string>, norm: map<string, string>): seq<string>
  {
    if |order| == 0 then []
    else
      var lang := order[|order| - 1];
      var prev := Collect(order[..|order| - 1], norm);
      if Lower(lang) in norm then prev + [norm[Lower(lang)]] else prev
  }

  /** The languages of `keys` whose governing (last matching) term is `term`. */
  ghost function RemovedBy(keys: set<string>, norm: map<string, string>, term: string): set<string>
  {
    set k | k in keys && Lower(k) in norm && norm[Lower(k)] == term
  }

  /** The languages of `keys` that some term matches. */
  ghost function Removed(keys: set<string>, norm: map<string, string>): set<string>
  {
    set k | k in keys && Lower(k) in norm
  }

  /** The elements of `s` are those of its initial part plus its last one. */
  lemma ElementsOfSnoc(s: seq<string>)
    requires |s| > 0
    ensures Elements(s) == Elements(s[..|s| - 1]) + {s[|s| - 1]}
  {
    assert s == s[..|s| - 1] + [s[|s| - 1]];
  }

  /** Dropping the last element keeps a sequence duplicate-free, and that element is not in the rest. */
  lemma NoDupSnoc(s: seq<string>)
    requires |s| > 0 && NoDup(s)
    ensures NoDup(s[..|s| - 1]) && s[|s| - 1] !in Elements(s[..|s| - 1])
  {
    var init := s[..|s| - 1];
    forall i | 0 <= i < |init|
      ensures init[i] != s[|s| - 1]
    {
      assert init[i] == s[i];
    }
  }

  lemma RemovedBySnoc(order: seq<string>, norm: map<string, string>, term: string)
    requires |order| > 0
    ensures var lang := order[|order| - 1];
      RemovedBy(Elements(order), norm, term)
      == RemovedBy(Elements(order[..|order| - 1]), norm, term)
         + (if Lower(lang) in norm && norm[Lower(lang)] == term then {lang} else {})
  {
    ElementsOfSnoc(order);
  }

  lemma RemovedSnoc(order: seq<string>, norm: map<string, string>)
    requires |order| > 0
    ensures var lang := order[|order| - 1];
      Removed(Elements(order), norm)
      == Removed(Elements(order[..|order| - 1]), norm) + (if Lower(lang) in norm then {lang} else {})
  {
    ElementsOfSnoc(order);
  }

  /** Each deleted language contributes its governing term once to the collected list. */
  lemma {:induction false} CollectCount(order: seq<string>, norm: map<string, string>, term: string)
    requires NoDup(order)
    ensures multiset(Collect(order, norm))[term] == |RemovedBy(Elements(order), norm, term)|
    decreases |order|
  {
    if |order| == 0 {
      assert RemovedBy(Elements(order), norm, term) == {};
    } else {
      var n := |order| - 1;
      var init := order[..n];
      var lang := order[n];
      NoDupSnoc(order);
      CollectCount(init, norm, term);
      RemovedBySnoc(order, norm, term);
      var before := RemovedBy(Elements(init), norm, term);
      assert lang !in before;
      if Lower(lang) in norm {
        assert Collect(order, norm) == Collect(init, norm) + [norm[Lower(lang)]];
      } else {
        assert Collect(order, norm) == Collect(init, norm);
      }
    }
  }

  /** The collected list has one entry per deleted language. */
  lemma {:induction false} CollectLength(order: seq<string>, norm: map<string, string>)
    requires NoDup(order)
    ensures |Collect(order, norm)| == |Removed(Elements(order), norm)|
    decreases |order|
  {
    if |order| == 0 {
      assert Removed(Elements(order), norm) == {};
    } else {
      var n := |order| - 1;
      var init := order[..n];
      var lang := order[n];
      NoDupSnoc(order);
      CollectLength(init, norm);
      RemovedSnoc(order, norm);
      assert lang !in Removed(Elements(init), norm);
    }
  }

  /**
   * `applyExcludes` on the map `total` whose keys the Go loop visits in the
   * order `order`: returns the map without the matched languages and the
   * sorted list of matching terms. With no terms the map is returned as is
   * and the list is empty (nil in the source).
   */
  function ApplyExcludes(total: map<string, int>, excludes: seq<string>, order: seq<string>)
    : (res: (map<string, int>, seq<string>))
    requires Enumerates(order, total.Keys)
    ensures |excludes| == 0 ==> res.0 == total && res.1 == []
    ensures forall k :: k in res.0 <==> k in total && !Matches(k, excludes)
    ensures forall k :: k in res.0 ==> res.0[k] == total[k]
    ensures SortedBy(res.1, LessEq)
    ensures forall t :: multiset(res.1)[t] == |RemovedBy(total.Keys, Normalize(excludes), t)|
    ensures |res.1| == |total| - |res.0|
  {
    if |excludes| == 0 then (total, [])
    else
      var norm := Normalize(excludes);
      var kept := map k | k in total && Lower(k) !in norm :: total[k];
      LessEqTotalOrder();
      var removed := Sort(Collect(order, norm), LessEq);
      ExcludeFacts(total, norm, order, kept, removed);
      (kept, removed)
  }

  lemma ExcludeFacts(total: map<string, int>, norm: map<string, string>, order: seq<string>,
                     kept: map<string, int>, removed: seq<string>)
    requires Enumerates(order, total.Keys)
    requires kept == map k | k in total && Lower(k) !in norm :: total[k]
    requires multiset(removed) == multiset(Collect(order, norm))
    ensures forall t :: multiset(removed)[t] == |RemovedBy(total.Keys, norm, t)|
    ensures |removed| == |total| - |kept|
  {
    assert Elements(order) == total.Keys;
    forall t
      ensures multiset(removed)[t] == |RemovedBy(total.Keys, norm, t)|
    {
      CollectCount(order, norm, t);
    }
    CollectLength(order, norm);
    KeptSize(total, norm, kept);
    assert |removed| == |multiset(removed)|;
  }

  lemma KeptSize(total: map<string, int>, norm: map<string, string>, kept: map<string, int>)
    requires kept == map k | k in total && Lower(k) !in norm :: total[k]
    ensures |kept| == |total| - |Removed(total.Keys, norm)|
  {
    var gone := Removed(total.Keys, norm);
    KeptKeys(total, norm, kept);
    DifferenceCard(total.Keys, gone);
    assert |kept| == |kept.Keys| && |total| == |total.Keys|;
  }

  lemma KeptKeys(total: map<string, int>, norm: map<string, string>, kept: map<string, int>)
    requires kept == map k | k in total && Lower(k) !in norm :: total[k]
    ensures kept.Keys == total.Keys - Removed(total.Keys, norm)
    ensures Removed(total.Keys, norm) <= total.Keys
  {
  }

  lemma DifferenceCard(a: set<string>, b: set<string>)
    requires b <= a
    ensures |a - b| == |a| - |b|
  {
    DisjointUnionCard(a - b, b);
    assert (a - b) + b == a;
  }

  /** The result of `applyExcludes` does not depend on the map's iteration order. */
  lemma ExcludesDeterministic(total: map<string, int>, excludes: seq<string>, o1: seq<string>, o2: seq<string>)
    requires Enumerates(o1, total.Keys) && Enumerates(o2, total.Keys)
    ensures ApplyExcludes(total, excludes, o1) == ApplyExcludes(total, excludes, o2)
  {
    var r1 := ApplyExcludes(total, excludes, o1).1;
    var r2 := ApplyExcludes(total, excludes, o2).1;
    forall t
      ensures multiset(r1)[t] == multiset(r2)[t]
    {
    }
    assert multiset(r1) == multiset(r2);
    LessEqTotalOrder();
    SortedUnique(r1, r2, LessEq);
  }

  /** Every reported name is one of the exclude terms, as typed. */
  lemma ReportedAreTerms(total: map<string, int>, excludes: seq<string>, order: seq<string>)
    requires Enumerates(order, total.Keys)
    ensures forall t :: t in ApplyExcludes(total, excludes, order).1 ==> t in excludes
  {
    var res := ApplyExcludes(total, excludes, order);
    var norm := Normalize(excludes);
    forall t | t in res.1
      ensures t in excludes
    {
      assert multiset(res.1)[t] > 0;
      assert RemovedBy(total.Keys, norm, t) != {};
      var k :| k in RemovedBy(total.Keys, norm, t);
      assert norm[Lower(k)] == t;
    }
  }

  lemma LowerOfGo()
    ensures Lower("Go") == "go" && Lower("GO") == "go" && Lower("go") == "go"
  {
    assert Lower("Go")[0] == 'g' && Lower("Go")[1] == 'o';
    assert Lower("GO")[0] == 'g' && Lower("GO")[1] == 'o';
    assert Lower("go")[0] == 'g' && Lower("go")[1] == 'o';
  }

  /**
   * The report spells a language the way the exclude term does, not the way
   * the data does: excluding "GO" from {"Go": 5} reports "GO".
   */
  lemma ReportUsesTermSpelling()
    ensures ApplyExcludes(map["Go" := 5], ["GO"], ["Go"]) == (map[], ["GO"])
  {
    var total := map["Go" := 5];
    var res := ApplyExcludes(total, ["GO"], ["Go"]);
    LowerOfGo();
    assert Matches("Go", ["GO"]) by {
      assert Lower(["GO"][0]) == Lower("Go");
    }
    assert res.0 == map[];
    assert |res.1| == 1;
    ReportedAreTerms(total, ["GO"], ["Go"]);
    assert res.1[0] in res.1;
  }

  /**
   * Two languages equal up to case, both excluded, are reported under the same
   * term twice: the report is not duplicate-free.
   */
  lemma ReportMayRepeat()
    ensures ApplyExcludes(map["Go" := 1, "GO" := 2], ["go"], ["Go", "GO"]).1 == ["go", "go"]
  {
    var total := map["Go" := 1, "GO" := 2];
    var removed := ApplyExcludes(total, ["go"], ["Go", "GO"]).1;
    GoRemovedTwice(total);
    ReportedAreTerms(total, ["go"], ["Go", "GO"]);
    TwoCopies(removed, "go");
  }

  lemma GoRemovedTwice(total: map<string, int>)
    requires total == map["Go" := 1, "GO" := 2]
    ensures |RemovedBy(total.Keys, Normalize(["go"]), "go")| == 2
  {
    var norm := Normalize(["go"]);
    LowerOfGo();
    assert LastOfItsCase(["go"], 0);
    assert norm["go"] == "go";
    assert RemovedBy(total.Keys, norm, "go") == {"Go", "GO"};
  }

  /** A sequence holding nothing but `x`, twice, is `[x, x]`. */
  lemma TwoCopies(s: seq<string>, x: string)
    requires multiset(s)[x] == 2
    requires forall t :: t in s ==> t in [x]
    ensures s == [x, x]
  {
    assert forall t :: t in s ==> t == x;
    OnlyCopies(s, x);
    assert s[0] in s && s[1] in s;
  }

  /** In a sequence holding nothing but `x`, `x` occurs once per position. */
  lemma {:induction false} OnlyCopies(s: seq<string>, x: string)
    requires forall t :: t in s ==> t == x
    ensures multiset(s)[x] == |s|
  {
    if |s| > 0 {
      assert forall t :: t in s[1..] ==> t in s;
      OnlyCopies(s[1..], x);
      assert s == [s[0]] + s[1..];
      assert s[0] in s;
    }
  }
}
