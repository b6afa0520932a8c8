/** `get_repositories`: walk the pages of the organisation listing, then rank
    what they returned. The network is replaced by the sequence of responses
    the listing gives, one per request, in request order; a response is
    followed by another exactly when it carried a "next" link. */
module Fetcher {
  import opened Repos
  import opened Ranking

  /** The records of all pages, in fetch order. */
  function Flatten(pages: seq<Page>): seq<Repository> {
    if pages == [] then []
    else Flatten(pages[..|pages| - 1]) + pages[|pages| - 1].body
  }

  /** Fetching `p` and then `q` accumulates what `p` gave followed by what
      `q` gave. */
  lemma {:induction false} FlattenAppend(p: seq<Page>, q: seq<Page>)
    ensures Flatten(p + q) == Flatten(p) + Flatten(q)
    decreases |q|
  {
    if q == [] {
      assert p + q == p;
    } else {
      var last := |q| - 1;
      assert (p + q)[..|p + q| - 1] == p + q[..last];
      FlattenAppend(p, q[..last]);
    }
  }

  /** A record is accumulated exactly when some page returned it. */
  lemma {:induction false} FlattenMember(pages: seq<Page>, x: Repository)
    ensures x in Flatten(pages) <==> exists i :: 0 <= i < |pages| && x in pages[i].body
  {
    if pages != [] {
      var init := pages[..|pages| - 1];
      FlattenMember(init, x);
      if x in Flatten(init) {
        var i :| 0 <= i < |init| && x in init[i].body;
        assert x in pages[i].body;
      }
      if i :| 0 <= i < |pages| && x in pages[i].body {
        if i < |init| {
          assert x in init[i].body;
        }
      }
    }
  }

  /** The index of the first page whose status is not 200, or the number of
      pages when every page succeeded. */
  function FirstFailure(pages: seq<Page>): (i: nat)
    ensures i <= |pages|
    ensures forall j :: 0 <= j < i ==> pages[j].status == HTTP_OK
    ensures i < |pages| ==> pages[i].status != HTTP_OK
  {
    if pages == [] || pages[0].status != HTTP_OK then 0
    else 1 + FirstFailure(pages[1..])
  }

  /** The `while url:` loop: request each page in turn, raise on the first
      status other than 200, otherwise extend the accumulator with its body. */
  method FetchPages(pages: seq<Page>) returns (r: Result<seq<Repository>>)
    ensures r.Ok? <==> forall i :: 0 <= i < |pages| ==> pages[i].status == HTTP_OK
    ensures r.Ok? ==> r.value == Flatten(pages)
    ensures r.Err? ==> FirstFailure(pages) < |pages| &&
                       r.error == HttpError(pages[FirstFailure(pages)].status, pages[FirstFailure(pages)].text)
  {
    var repos: seq<Repository> := [];
    var i := 0;
    while i < |pages|
      invariant 0 <= i <= |pages|
      invariant forall j :: 0 <= j < i ==> pages[j].status == HTTP_OK
      invariant repos == Flatten(pages[..i])
    {
      var response := pages[i];
      if response.status != HTTP_OK {
        return Err(HttpError(response.status, response.text));
      }
      assert pages[..i + 1][..i] == pages[..i];
      repos := repos + response.body;
      i := i + 1;
    }
    assert pages[..i] == pages;
    return Ok(repos);
  }

  /** Accumulate pages, then rank: a failed page aborts before any filtering
      and leaves no partial result; otherwise the ranking of everything the
      pages returned. */
  method GetRepositories(pages: seq<Page>, language: string, topN: int) returns (r: Result<seq<Repository>>)
    ensures r.Ok? <==> forall i :: 0 <= i < |pages| ==> pages[i].status == HTTP_OK
    ensures r.Ok? ==> r.value == Rank(Flatten(pages), language, topN)
    ensures r.Err? ==> FirstFailure(pages) < |pages| &&
                       r.error == HttpError(pages[FirstFailure(pages)].status, pages[FirstFailure(pages)].text)
  {
    var fetched := FetchPages(pages);
    match fetched {
      case Err(e) => r := Err(e);
      case Ok(repos) =>
        var filtered := FilterByLanguage(repos, language);
        var sorted := SortByStars(filtered);
        r := Ok(SliceTo(sorted, topN));
    }
  }

  /** Every record the listing returns came back from one of the fetched pages. */
  lemma RankedFromPages(pages: seq<Page>, language: string, topN: int, y: Repository)
    requires y in Rank(Flatten(pages), language, topN)
    ensures exists i :: 0 <= i < |pages| && y in pages[i].body
  {
    var repos := Flatten(pages);
    RankSubMultiset(repos, language, topN);
    assert y in multiset(Rank(repos, language, topN));
    FlattenMember(pages, y);
  }

  /** Two Go repositories with 50 and 10 stars and a Python one with 1000:
      asking for the top two Go repositories gives the 50 then the 10, and
      the Python one is excluded whatever its star count. */
  lemma GoScenario(a: Repository, b: Repository, p: Repository)
    requires a.language == Some("Go") && a.stars == 10
    requires b.language == Some("Go") && b.stars == 50
    requires p.language == Some("Python") && p.stars == 1000
    ensures Rank(Flatten([Page(HTTP_OK, "", [a, p]), Page(HTTP_OK, "", [b])]), "Go", 2) == [b, a]
  {
    var pages := [Page(HTTP_OK, "", [a, p]), Page(HTTP_OK, "", [b])];
    assert pages[..1] == [pages[0]] && pages[..1][..0] == [];
    assert Flatten(pages[..1]) == [a, p];
    assert Flatten(pages) == [a, p, b];
    assert [a, p, b][1..] == [p, b] && [p, b][1..] == [b] && [b][1..] == [];
    assert "Python" != "Go";
    assert FilterByLanguage([b], "Go") == [b];
    assert FilterByLanguage([p, b], "Go") == [b];
    assert FilterByLanguage([a, p, b], "Go") == [a, b];
    assert SortByStars([b]) == [b];
    assert SortByStars([a, b]) == [b, a];
  }
}
