/** The ranking step of `get_repositories`: keep the records whose language is
    exactly the requested one, order them by star count from most to fewest
    with a stable sort, and keep the first `top_n` with Python's slice rules. */
module Ranking {
  import opened Repos

  // ---------------------------------------------------------------------------
  // Filtering by language
  // ---------------------------------------------------------------------------

  /** Python's `repo["language"] == language`: a case-sensitive string
      comparison, and a null language never equals a string. */
  predicate Matches(r: Repository, language: string) {
    r.language == Some(language)
  }

  /** The list comprehension: the matching records, in input order. */
  function FilterByLanguage(repos: seq<Repository>, language: string): (r: seq<Repository>)
    ensures |r| <= |repos|
    ensures forall x :: x in r <==> x in repos && Matches(x, language)
  {
    if repos == [] then []
    else if Matches(repos[0], language) then [repos[0]] + FilterByLanguage(repos[1..], language)
    else FilterByLanguage(repos[1..], language)
  }

  /** The filter keeps every copy of a matching record and no copy of any
      other record. */
  lemma {:induction false} FilterCounts(repos: seq<Repository>, language: string, x: Repository)
    ensures multiset(FilterByLanguage(repos, language))[x] ==
            if Matches(x, language) then multiset(repos)[x] else 0
  {
    if repos != [] {
      FilterCounts(repos[1..], language, x);
      assert repos == [repos[0]] + repos[1..];
    }
  }

  /** The filter keeps the input order: filtering a concatenation is the
      concatenation of the filtered parts. */
  lemma {:induction false} FilterAppend(a: seq<Repository>, b: seq<Repository>, language: string)
    ensures FilterByLanguage(a + b, language) == FilterByLanguage(a, language) + FilterByLanguage(b, language)
  {
    if a == [] {
      assert a + b == b;
    } else {
      assert (a + b)[1..] == a[1..] + b;
      FilterAppend(a[1..], b, language);
    }
  }

  /** The filter invents and duplicates nothing. */
  lemma FilterSubMultiset(repos: seq<Repository>, language: string)
    ensures multiset(FilterByLanguage(repos, language)) <= multiset(repos)
  {
    forall x | true
      ensures multiset(FilterByLanguage(repos, language))[x] <= multiset(repos)[x]
    {
      FilterCounts(repos, language, x);
    }
  }

  // ---------------------------------------------------------------------------
  // Ordering by star count
  // ---------------------------------------------------------------------------

  /** Star counts never increase from one element to a later one. */
  predicate SortedDesc(s: seq<Repository>) {
    forall i, j :: 0 <= i < j < |s| ==> s[i].stars >= s[j].stars
  }

  /** The records of `s` whose star count is `k`, in the order of `s`. */
  function WithStars(s: seq<Repository>, k: nat): (r: seq<Repository>)
    ensures |r| <= |s|
    ensures forall x :: x in r <==> x in s && x.stars == k
  {
    if s == [] then []
    else (if s[0].stars == k then [s[0]] else []) + WithStars(s[1..], k)
  }

  /** Taking the records of one star count commutes with the language filter,
      so the matching records of that count keep their order in the input. */
  lemma {:induction false} FilterWithStars(repos: seq<Repository>, language: string, k: nat)
    ensures WithStars(FilterByLanguage(repos, language), k) == FilterByLanguage(WithStars(repos, k), language)
  {
    if repos != [] {
      FilterWithStars(repos[1..], language, k);
      var head := if repos[0].stars == k then [repos[0]] else [];
      assert WithStars(repos, k) == head + WithStars(repos[1..], k);
      FilterAppend(head, WithStars(repos[1..], k), language);
      if Matches(repos[0], language) {
        assert ([repos[0]] + FilterByLanguage(repos[1..], language))[1..] == FilterByLanguage(repos[1..], language);
      }
    }
  }

  lemma {:induction false} WithStarsAppend(a: seq<Repository>, b: seq<Repository>, k: nat)
    ensures WithStars(a + b, k) == WithStars(a, k) + WithStars(b, k)
  {
    if a == [] {
      assert a + b == b;
    } else {
      assert (a + b)[1..] == a[1..] + b;
      WithStarsAppend(a[1..], b, k);
    }
  }

  /** Places `x` in front of the first element of `t` that has no more stars
      than `x`: an element that came earlier in the input goes ahead of the
      ones with the same count, which is what makes the sort stable. */
  function Insert(x: Repository, t: seq<Repository>): (r: seq<Repository>)
    ensures |r| == |t| + 1
    ensures multiset(r) == multiset(t) + multiset{x}
  {
    if t == [] || t[0].stars <= x.stars then [x] + t
    else
      assert t == [t[0]] + t[1..];
      [t[0]] + Insert(x, t[1..])
  }

  /** `sorted(..., key=lambda x: x["stargazers_count"], reverse=True)`, as a
      stable insertion sort. */
  function SortByStars(s: seq<Repository>): (r: seq<Repository>)
    ensures |r| == |s|
    ensures multiset(r) == multiset(s)
  {
    if s == [] then []
    else
      assert s == [s[0]] + s[1..];
      Insert(s[0], SortByStars(s[1..]))
  }

  lemma {:induction false} InsertSorted(x: Repository, t: seq<Repository>)
    requires SortedDesc(t)
    ensures SortedDesc(Insert(x, t))
  {
    if t == [] || t[0].stars <= x.stars {
    } else {
      var rest := Insert(x, t[1..]);
      InsertSorted(x, t[1..]);
      forall y | y in rest ensures t[0].stars >= y.stars {
        assert y in multiset(rest);
        if y != x {
          assert y in t[1..];
        }
      }
      forall i, j | 0 <= i < j < |[t[0]] + rest|
        ensures ([t[0]] + rest)[i].stars >= ([t[0]] + rest)[j].stars
      {
        if i == 0 {
          assert ([t[0]] + rest)[j] == rest[j - 1];
          assert rest[j - 1] in rest;
        }
      }
    }
  }

  /** The sort orders by star count, most first. */
  lemma {:induction false} SortSorted(s: seq<Repository>)
    ensures SortedDesc(SortByStars(s))
  {
    if s != [] {
      SortSorted(s[1..]);
      InsertSorted(s[0], SortByStars(s[1..]));
    }
  }

  lemma {:induction false} InsertWithStars(x: Repository, t: seq<Repository>, k: nat)
    ensures WithStars(Insert(x, t), k) ==
            if x.stars == k then [x] + WithStars(t, k) else WithStars(t, k)
  {
    if t == [] || t[0].stars <= x.stars {
      assert ([x] + t)[1..] == t;
    } else {
      InsertWithStars(x, t[1..], k);
      assert ([t[0]] + Insert(x, t[1..]))[1..] == Insert(x, t[1..]);
    }
  }

  /** Stability: for every star count, the records with that count come out
      in the order they went in. */
  lemma {:induction false} SortStable(s: seq<Repository>, k: nat)
    ensures WithStars(SortByStars(s), k) == WithStars(s, k)
  {
    if s != [] {
      SortStable(s[1..], k);
      InsertWithStars(s[0], SortByStars(s[1..]), k);
    }
  }

  /** A non-empty run of records with `k` stars means some record has `k` stars,
      so the head of a descending sequence has at least `k`. */
  lemma HeadBoundsWithStars(s: seq<Repository>, k: nat)
    requires SortedDesc(s) && WithStars(s, k) != []
    ensures s[0].stars >= k
  {
    var y := WithStars(s, k)[0];
    assert y in WithStars(s, k);
    var i :| 0 <= i < |s| && s[i] == y;
    assert i == 0 || s[0].stars >= s[i].stars;
  }

  /** The run of records with `s[0]`'s star count starts with `s[0]`. */
  lemma HeadStartsItsRun(s: seq<Repository>)
    requires s != []
    ensures WithStars(s, s[0].stars) == [s[0]] + WithStars(s[1..], s[0].stars)
  {
  }

  /** Two descending sequences that agree on the order of the records of every
      star count start with the same record. */
  lemma HeadsAgree(t: seq<Repository>, u: seq<Repository>)
    requires SortedDesc(t) && SortedDesc(u) && t != [] && u != []
    requires forall k: nat :: WithStars(t, k) == WithStars(u, k)
    ensures t[0] == u[0]
  {
    HeadStartsItsRun(t);
    HeadStartsItsRun(u);
    HeadBoundsWithStars(u, t[0].stars);
    HeadBoundsWithStars(t, u[0].stars);
    assert t[0].stars == u[0].stars;
    assert WithStars(t, t[0].stars)[0] == WithStars(u, u[0].stars)[0];
  }

  /** Dropping the same head from both sides keeps the runs equal. */
  lemma TailsAgree(t: seq<Repository>, u: seq<Repository>, k: nat)
    requires t != [] && u != [] && t[0] == u[0]
    requires WithStars(t, k) == WithStars(u, k)
    ensures WithStars(t[1..], k) == WithStars(u[1..], k)
  {
    var head := if t[0].stars == k then [t[0]] else [];
    assert WithStars(t[1..], k) == WithStars(t, k)[|head|..];
    assert WithStars(u[1..], k) == WithStars(u, k)[|head|..];
  }

  /** Two descending sequences that agree on the order of the records of every
      star count are the same sequence. */
  lemma {:induction false} StableOrderUnique(t: seq<Repository>, u: seq<Repository>)
    requires SortedDesc(t) && SortedDesc(u)
    requires forall k: nat :: WithStars(t, k) == WithStars(u, k)
    ensures t == u
    decreases |t|
  {
    if t == [] && u == [] {
    } else if t == [] {
      HeadStartsItsRun(u);
      assert false;
    } else if u == [] {
      HeadStartsItsRun(t);
      assert false;
    } else {
      HeadsAgree(t, u);
      forall k: nat ensures WithStars(t[1..], k) == WithStars(u[1..], k) {
        TailsAgree(t, u, k);
      }
      StableOrderUnique(t[1..], u[1..]);
      assert t == [t[0]] + t[1..];
      assert u == [u[0]] + u[1..];
    }
  }

  /** `SortByStars` is the one descending ordering of `s` that keeps the input
      order among records with equal star counts. */
  lemma SortIsStableDescendingOrder(s: seq<Repository>, t: seq<Repository>)
    requires SortedDesc(t)
    requires forall k: nat :: WithStars(t, k) == WithStars(s, k)
    ensures t == SortByStars(s)
  {
    SortSorted(s);
    forall k: nat ensures WithStars(t, k) == WithStars(SortByStars(s), k) {
      SortStable(s, k);
    }
    StableOrderUnique(t, SortByStars(s));
  }

  // ---------------------------------------------------------------------------
  // Keeping the first top_n
  // ---------------------------------------------------------------------------

  function Min(a: int, b: int): int { if a <= b then a else b }
  function Max(a: int, b: int): int { if a >= b then a else b }

  /** Python's `s[:n]`: a negative `n` counts from the end, and the bound is
      clamped to the length of `s`. */
  function SliceTo(s: seq<Repository>, n: int): (r: seq<Repository>)
    ensures r <= s
    ensures n >= 0 ==> |r| == Min(n, |s|)
    ensures n < 0 ==> |r| == Max(0, |s| + n)
  {
    if n >= 0 then s[..Min(n, |s|)] else s[..Max(0, |s| + n)]
  }

  // ---------------------------------------------------------------------------
  // The whole ranking step
  // ---------------------------------------------------------------------------

  /** The matching records in ranking order, before the slice. */
  function Ranked(repos: seq<Repository>, language: string): seq<Repository> {
    SortByStars(FilterByLanguage(repos, language))
  }

  /** `sorted_repos[:top_n]` of `get_repositories`. */
  function Rank(repos: seq<Repository>, language: string, topN: int): seq<Repository> {
    SliceTo(Ranked(repos, language), topN)
  }

  /** Every returned record has exactly the requested language, so a record
      whose language is null is never returned. */
  lemma RankLanguage(repos: seq<Repository>, language: string, topN: int)
    ensures forall i :: 0 <= i < |Rank(repos, language, topN)| ==>
              Rank(repos, language, topN)[i].language == Some(language)
  {
    var r := Rank(repos, language, topN);
    var sorted := Ranked(repos, language);
    forall i | 0 <= i < |r| ensures r[i].language == Some(language) {
      assert r[i] == sorted[i];
      assert sorted[i] in multiset(sorted);
      assert sorted[i] in FilterByLanguage(repos, language);
    }
  }

  /** The result has `min(top_n, matches)` records for a non-negative `top_n`,
      and for a negative one drops that many from the end of the matches. */
  lemma RankLength(repos: seq<Repository>, language: string, topN: int)
    ensures var m := |FilterByLanguage(repos, language)|;
            |Rank(repos, language, topN)| == if topN >= 0 then Min(topN, m) else Max(0, m + topN)
  {
  }

  /** The result is ordered by star count, most first. */
  lemma RankSorted(repos: seq<Repository>, language: string, topN: int)
    ensures SortedDesc(Rank(repos, language, topN))
  {
    SortSorted(FilterByLanguage(repos, language));
  }

  /** The result is a prefix of the ranked matches, and as a multiset it is
      contained in the input: nothing is invented or duplicated. */
  lemma RankSubMultiset(repos: seq<Repository>, language: string, topN: int)
    ensures Rank(repos, language, topN) <= Ranked(repos, language)
    ensures multiset(Rank(repos, language, topN)) <= multiset(repos)
  {
    var sorted := Ranked(repos, language);
    var r := Rank(repos, language, topN);
    assert sorted == r + sorted[|r|..];
    FilterSubMultiset(repos, language);
  }

  /** Top-N: a matching record left out of the result (a copy of it that the
      result does not hold) has no more stars than any record in it. */
  lemma RankTopN(repos: seq<Repository>, language: string, topN: int, x: Repository)
    requires multiset(Rank(repos, language, topN))[x] < multiset(FilterByLanguage(repos, language))[x]
    ensures forall y :: y in Rank(repos, language, topN) ==> x.stars <= y.stars
  {
    var sorted := Ranked(repos, language);
    var r := Rank(repos, language, topN);
    var rest := sorted[|r|..];
    assert sorted == r + rest;
    assert multiset(sorted) == multiset(r) + multiset(rest);
    assert x in multiset(rest);
    var j :| 0 <= j < |rest| && rest[j] == x;
    SortSorted(FilterByLanguage(repos, language));
    forall y | y in r ensures x.stars <= y.stars {
      var i :| 0 <= i < |r| && r[i] == y;
      assert sorted[i] == y && sorted[|r| + j] == x;
    }
  }

  /** Stability of the result: the returned records with any one star count are
      the first of the matching records with that count, in ranking input order. */
  lemma RankStable(repos: seq<Repository>, language: string, topN: int, k: nat)
    ensures WithStars(Rank(repos, language, topN), k) <= WithStars(FilterByLanguage(repos, language), k)
  {
    var matching := FilterByLanguage(repos, language);
    var sorted := SortByStars(matching);
    var r := SliceTo(sorted, topN);
    var rest := sorted[|r|..];
    assert sorted == r + rest;
    WithStarsAppend(r, rest, k);
    SortStable(matching, k);
  }

  /** The same stability, against the accumulated input itself: the returned
      records with star count `k` are a prefix of the input's records with
      that count and the requested language, in the order they came in. */
  lemma RankInputOrder(repos: seq<Repository>, language: string, topN: int, k: nat)
    ensures WithStars(Rank(repos, language, topN), k) <= FilterByLanguage(WithStars(repos, k), language)
  {
    RankStable(repos, language, topN, k);
    FilterWithStars(repos, language, k);
  }

  /** With no matching record the result is empty (no error); for a positive
      `top_n` an empty result means nothing matched. */
  lemma RankEmpty(repos: seq<Repository>, language: string, topN: int)
    ensures (forall x :: x in repos ==> !Matches(x, language)) ==> Rank(repos, language, topN) == []
    ensures topN > 0 && Rank(repos, language, topN) == [] ==>
              forall x :: x in repos ==> !Matches(x, language)
  {
    var matching := FilterByLanguage(repos, language);
    if matching != [] {
      assert matching[0] in matching;
    }
    if topN > 0 && Rank(repos, language, topN) == [] {
      assert |matching| == 0;
    }
  }
}
