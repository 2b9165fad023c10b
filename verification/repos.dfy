/**
 * The Aggregator: the fork/archive filter `main` applies to the fetched
 * repositories, and the fold `total[lang] += bytes` over the per-repository
 * language maps.
 */
module Repos {

  /** `repo`: one entry of the repository listing. */
  datatype Repo = Repo(name: string, fullName: string, fork: bool, archived: bool)

  /** The filter's verdict: forks only when included, archived repositories only when included. */
  predicate Kept(r: Repo, includeForks: bool, includeArchived: bool) {
    (includeForks || !r.fork) && (includeArchived || !r.archived)
  }

  /** The filtering loop of `main`: skips forks and archived repositories unless included. */
  function FilterRepos(repos: seq<Repo>, includeForks: bool, includeArchived: bool): (filtered: seq<Repo>)
    ensures |filtered| <= |repos|
    ensures forall r :: r in filtered <==> r in repos && Kept(r, includeForks, includeArchived)
  {
    if |repos| == 0 then []
    else
      var r := repos[0];
      var rest := FilterRepos(repos[1..], includeForks, includeArchived);
      assert forall x :: x in repos <==> x == r || x in repos[1..];
      if !includeForks && r.fork then rest
      else if !includeArchived && r.archived then rest
      else [r] + rest
  }

  /** Filtering distributes over concatenation, so it keeps the listing order. */
  lemma {:induction false} FilterConcat(a: seq<Repo>, b: seq<Repo>, includeForks: bool, includeArchived: bool)
    ensures FilterRepos(a + b, includeForks, includeArchived)
         == FilterRepos(a, includeForks, includeArchived) + FilterRepos(b, includeForks, includeArchived)
    decreases |a|
  {
    if |a| == 0 {
      assert a + b == b;
    } else {
      assert (a + b)[0] == a[0] && (a + b)[1..] == a[1..] + b;
      FilterConcat(a[1..], b, includeForks, includeArchived);
    }
  }

  /** A single repository survives exactly when the filter keeps it. */
  lemma FilterSingle(r: Repo, includeForks: bool, includeArchived: bool)
    ensures FilterRepos([r], includeForks, includeArchived)
         == if Kept(r, includeForks, includeArchived) then [r] else []
  {
    assert [r][1..] == [];
  }

  /** Filtering twice is filtering once. */
  lemma {:induction false} FilterIdempotent(repos: seq<Repo>, includeForks: bool, includeArchived: bool)
    ensures var f := FilterRepos(repos, includeForks, includeArchived);
      FilterRepos(f, includeForks, includeArchived) == f
    decreases |repos|
  {
    if |repos| > 0 {
      FilterIdempotent(repos[1..], includeForks, includeArchived);
      var rest := FilterRepos(repos[1..], includeForks, includeArchived);
      if Kept(repos[0], includeForks, includeArchived) {
        assert ([repos[0]] + rest)[0] == repos[0] && ([repos[0]] + rest)[1..] == rest;
      }
    }
  }

  /** The count of a language in one map, zero when absent (Go's zero value). */
  function Get(m: map<string, int>, lang: string): int {
    if lang in m then m[lang] else 0
  }

  /** Adds one repository's language map into the running total. */
  function AddInto(total: map<string, int>, langs: map<string, int>): (r: map<string, int>)
    ensures r.Keys == total.Keys + langs.Keys
    ensures forall lang :: lang in r ==> r[lang] == Get(total, lang) + Get(langs, lang)
  {
    map lang | lang in total.Keys + langs.Keys :: Get(total, lang) + Get(langs, lang)
  }

  /** Adding one repository raises every language's running count, present or not, by that repository's count. */
  lemma AddIntoGet(total: map<string, int>, langs: map<string, int>, lang: string)
    ensures Get(AddInto(total, langs), lang) == Get(total, lang) + Get(langs, lang)
  {
  }

  /** The order in which two repositories are added does not matter. */
  lemma AddIntoCommutes(total: map<string, int>, a: map<string, int>, b: map<string, int>)
    ensures AddInto(AddInto(total, a), b) == AddInto(AddInto(total, b), a)
  {
    var ab := AddInto(AddInto(total, a), b);
    var ba := AddInto(AddInto(total, b), a);
    forall lang | lang in ab
      ensures ab[lang] == ba[lang]
    {
      AddIntoGet(total, a, lang);
      AddIntoGet(total, b, lang);
    }
  }

  /** Total bytes of `lang` over all repositories. */
  function SumAt(perRepo: seq<map<string, int>>, lang: string): int
  {
    if |perRepo| == 0 then 0
    else SumAt(perRepo[..|perRepo| - 1], lang) + Get(perRepo[|perRepo| - 1], lang)
  }

  /** Some repository in the listing reports `lang`. */
  predicate Reports(perRepo: seq<map<string, int>>, lang: string) {
    exists i :: 0 <= i < |perRepo| && lang in perRepo[i]
  }

  lemma ReportsSnoc(perRepo: seq<map<string, int>>, lang: string)
    requires |perRepo| > 0
    ensures var n := |perRepo| - 1;
      Reports(perRepo, lang) <==> Reports(perRepo[..n], lang) || lang in perRepo[n]
  {
    var n := |perRepo| - 1;
    if Reports(perRepo, lang) && !(lang in perRepo[n]) {
      var i :| 0 <= i < |perRepo| && lang in perRepo[i];
      assert perRepo[..n][i] == perRepo[i];
    }
    if Reports(perRepo[..n], lang) {
      var i :| 0 <= i < n && lang in perRepo[..n][i];
      assert perRepo[..n][i] == perRepo[i];
    }
  }

  /** A language no repository reports sums to zero. */
  lemma {:induction false} SumAtUnreported(perRepo: seq<map<string, int>>, lang: string)
    requires !Reports(perRepo, lang)
    ensures SumAt(perRepo, lang) == 0
    decreases |perRepo|
  {
    if |perRepo| > 0 {
      ReportsSnoc(perRepo, lang);
      SumAtUnreported(perRepo[..|perRepo| - 1], lang);
    }
  }

  /**
   * The aggregation loop of `fetchLanguages`, repository by repository: a
   * language is present iff some repository reports it, with the sum of its
   * counts over all repositories.
   */
  function Aggregate(perRepo: seq<map<string, int>>): (total: map<string, int>)
    ensures forall lang :: lang in total <==> Reports(perRepo, lang)
    ensures forall lang :: lang in total ==> total[lang] == SumAt(perRepo, lang)
  {
    if |perRepo| == 0 then map[]
    else
      var n := |perRepo| - 1;
      var prev := Aggregate(perRepo[..n]);
      var r := AddInto(prev, perRepo[n]);
      assert forall lang :: lang in r <==> Reports(perRepo, lang) by {
        forall lang
          ensures lang in r <==> Reports(perRepo, lang)
        {
          ReportsSnoc(perRepo, lang);
        }
      }
      assert forall lang :: lang in r ==> r[lang] == SumAt(perRepo, lang) by {
        forall lang | lang in r
          ensures r[lang] == SumAt(perRepo, lang)
        {
          if lang !in prev {
            SumAtUnreported(perRepo[..n], lang);
          }
        }
      }
      r
  }

  lemma {:induction false} SumAtConcat(a: seq<map<string, int>>, b: seq<map<string, int>>, lang: string)
    ensures SumAt(a + b, lang) == SumAt(a, lang) + SumAt(b, lang)
    decreases |b|
  {
    if |b| == 0 {
      assert a + b == a;
    } else {
      var n := |b| - 1;
      assert (a + b)[..|a + b| - 1] == a + b[..n];
      SumAtConcat(a, b[..n], lang);
    }
  }

  /** Removing the `j`-th map removes exactly its share from the sum. */
  lemma SumAtRemove(b: seq<map<string, int>>, j: nat, lang: string)
    requires j < |b|
    ensures SumAt(b, lang) == SumAt(b[..j] + b[j + 1..], lang) + Get(b[j], lang)
  {
    assert b == (b[..j] + [b[j]]) + b[j + 1..];
    SumAtConcat(b[..j] + [b[j]], b[j + 1..], lang);
    SumAtConcat(b[..j], b[j + 1..], lang);
    assert (b[..j] + [b[j]])[..j] == b[..j];
  }

  lemma MultisetRemove<T>(b: seq<T>, j: nat)
    requires j < |b|
    ensures multiset(b[..j] + b[j + 1..]) == multiset(b) - multiset{b[j]}
  {
    assert b == b[..j] + [b[j]] + b[j + 1..];
  }

  /** Summing is invariant under reordering the repositories. */
  lemma {:induction false} SumAtPermutation(a: seq<map<string, int>>, b: seq<map<string, int>>, lang: string)
    requires multiset(a) == multiset(b)
    ensures SumAt(a, lang) == SumAt(b, lang)
    decreases |a|
  {
    assert |a| == |multiset(a)| == |multiset(b)| == |b|;
    if |a| > 0 {
      var n := |a| - 1;
      var x := a[n];
      assert x in multiset(b);
      var j :| 0 <= j < |b| && b[j] == x;
      MultisetRemove(a, n);
      MultisetRemove(b, j);
      assert a[..n] + a[n + 1..] == a[..n];
      SumAtPermutation(a[..n], b[..j] + b[j + 1..], lang);
      SumAtRemove(b, j, lang);
    }
  }

  /** Aggregation does not depend on the order the repositories are visited in. */
  lemma AggregatePermutation(a: seq<map<string, int>>, b: seq<map<string, int>>)
    requires multiset(a) == multiset(b)
    ensures Aggregate(a) == Aggregate(b)
  {
    var ta := Aggregate(a);
    var tb := Aggregate(b);
    forall lang
      ensures lang in ta <==> lang in tb
    {
      if lang in ta {
        var i :| 0 <= i < |a| && lang in a[i];
        assert a[i] in multiset(b);
        var j :| 0 <= j < |b| && b[j] == a[i];
      }
      if lang in tb {
        var i :| 0 <= i < |b| && lang in b[i];
        assert b[i] in multiset(a);
        var j :| 0 <= j < |a| && a[j] == b[i];
      }
    }
    forall lang | lang in ta
      ensures ta[lang] == tb[lang]
    {
      SumAtPermutation(a, b, lang);
    }
  }
}
