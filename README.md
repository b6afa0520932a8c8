# StarFetcher: listing and ranking an organisation's repositories

StarFetcher asks a code-hosting platform for every repository of an
organisation, keeps those written in one language, orders them by star count
and clones the first `top_n`. The part with behaviour worth proving is
`get_repositories` in `fetcher.py`:

- the pagination loop (`while url:`) requests one page after another, raises a
  generic exception on the first status other than 200, and otherwise extends
  its list of records with the page's body;
- the ranking step keeps the records whose `language` equals the requested
  one, sorts them by `stargazers_count` from most to fewest with Python's
  stable `sorted(..., reverse=True)`, and returns `sorted_repos[:top_n]`.

The model has three modules:

- `Repos` (`repos.dfy`): a repository record (`name`, `cloneUrl`, a language
  that may be absent, a natural star count), a page response (status, text,
  records), the error, and `Option`/`Result`.
- `Ranking` (`ranking.dfy`): the ranking step as functions. The filter is a
  recursive function, the sort a stable insertion sort, and the slice follows
  Python's rules, negative bounds included. Lemmas state what the step
  guarantees.
- `Fetcher` (`fetcher.dfy`): the pagination loop as a method with a `while`
  loop over the sequence of page responses, and `GetRepositories`, which
  accumulates the pages and then ranks them.

The network is replaced by the sequence of responses the listing returns, one
per request, in request order. A response is followed by another exactly when
its `Link` header carried a `next` URL, so the loop ends after the last
response in the sequence. The code always issues a first request; the model
also accepts an empty sequence, for which it returns an empty list.

The intended behaviour of the tool (a case-insensitive language match, a
not-found error when nothing matches, a separate error for a 403 response)
differs from the code; the model follows the code:

- the language comparison is Python's `==` on strings, so it is case-sensitive;
  a repository whose language is null never matches;
- when nothing matches, the result is the empty list, not an error;
- every status other than 200 raises the same error, carrying status and text.
  A 403 response gets no separate treatment.

## Model

| member | source | states |
|---|---|---|
| `Ranking.FilterByLanguage` | fetcher.py:38 | the kept records are exactly the input records whose language equals the requested one; never longer than the input |
| `Ranking.FilterCounts` | fetcher.py:38 | every copy of a matching record is kept and no copy of any other record |
| `Ranking.FilterAppend` | fetcher.py:38 | the filter keeps input order: filtering a concatenation gives the filtered first part followed by the filtered second part |
| `Ranking.FilterWithStars` | fetcher.py:38 | taking the records of one star count commutes with the language filter, so the matching records of that count appear in input order |
| `Ranking.FilterSubMultiset` | fetcher.py:38 | the filter invents and duplicates nothing: its multiset is contained in the input's |
| `Ranking.Insert` | fetcher.py:39 | inserting into the sorted part adds exactly the one record (multiset and length) |
| `Ranking.SortByStars` | fetcher.py:39 | the sort is a permutation of its input |
| `Ranking.InsertSorted` | fetcher.py:39 | inserting into a descending sequence keeps it descending |
| `Ranking.SortSorted` | fetcher.py:39 | the sorted list never increases in star count from one element to the next |
| `Ranking.InsertWithStars` | fetcher.py:39 | an inserted record goes ahead of every record with the same star count and leaves the order of other counts alone |
| `Ranking.SortStable` | fetcher.py:39 | stability of `sorted(..., reverse=True)`: for every star count, the records with that count keep their input order |
| `Ranking.StableOrderUnique` | fetcher.py:39 | two descending sequences that agree on the order within every star count are equal |
| `Ranking.SortIsStableDescendingOrder` | fetcher.py:39 | any descending sequence that keeps the input order within each star count is exactly the sort's result, so the sort is fully determined by those two properties |
| `Ranking.SliceTo` | fetcher.py:41 | `s[:n]` is a prefix of `s` of length `min(n, len(s))` for `n >= 0` and `max(0, len(s) + n)` for negative `n` |
| `Ranking.RankLanguage` | fetcher.py:38-41 | every returned record's language equals the requested language exactly, so no record with a null language is returned |
| `Ranking.RankLength` | fetcher.py:38-41 | for `top_n >= 0` the result has `min(top_n, number of matches)` records; a negative `top_n` drops that many from the end |
| `Ranking.RankSorted` | fetcher.py:39-41 | the result never increases in star count from one record to the next |
| `Ranking.RankSubMultiset` | fetcher.py:38-41 | the result is a prefix of the sorted matches and a sub-multiset of the input: no record is invented or duplicated |
| `Ranking.RankTopN` | fetcher.py:39-41 | any matching record left out of the result (a copy the result does not hold) has no more stars than every returned record |
| `Ranking.RankStable` | fetcher.py:39-41 | for every star count, the returned records with that count are a prefix of the matching records with that count, in the order the filter kept them |
| `Ranking.RankInputOrder` | fetcher.py:38-41 | for every star count, the returned records with that count are a prefix of the input's records with that count and the requested language, in input order |
| `Ranking.RankEmpty` | fetcher.py:38-41 | with no match the result is the empty list, not an error; for a positive `top_n` an empty result means nothing matched |
| `Fetcher.FlattenAppend` | fetcher.py:34 | accumulating pages `p` then `q` gives what `p` returned followed by what `q` returned |
| `Fetcher.FlattenMember` | fetcher.py:34 | a record is accumulated exactly when some page returned it |
| `Fetcher.FirstFailure` | fetcher.py:30-33 | the index of the first page whose status is not 200 (every earlier page has status 200), or the page count when all succeed |
| `Fetcher.FetchPages` | fetcher.py:30-35 | succeeds exactly when every page has status 200, and then returns all page bodies concatenated in fetch order; otherwise fails with the status and text of the first failing page |
| `Fetcher.GetRepositories` | fetcher.py:25-41 | a failing page aborts with that page's error before any filtering, with no partial result; otherwise the ranking of everything the pages returned |
| `Fetcher.RankedFromPages` | fetcher.py:30-41 | every returned record came back from one of the fetched pages |
| `Fetcher.GoScenario` | fetcher.py:38-41 | two Go repositories with 50 and 10 stars and a Python one with 1000, top two Go: the 50 then the 10, the Python one excluded |

## Left out

- The HTTP requests, `response.json()` and `response.links` (fetcher.py:31, 34-35): network I/O, replaced by the given sequence of page responses. JSON decoding is assumed to yield well-formed records.
- Loading `.env`, the module-level token check and the request headers (fetcher.py:7-14): environment I/O and global configuration.
- `get_args` and its argument parsing (fetcher.py:17-22), and the conversion `int(top_n)` of a string (fetcher.py:26, 53): the model takes `top_n` as an integer, so the `ValueError` of a non-numeric string is not modelled.
- `clone_repositories` (fetcher.py:44-49): a message and a `git clone` shell command per record, in list order; nothing checkable beyond that order.
- The `__main__` block (fetcher.py:51-59): glue between argument parsing, listing and cloning.
- A parallel clone pool, a `--force` directory preparation step and a typed error taxonomy were planned for the tool but do not exist in this code, so they are not modelled.
- The `org` parameter of `get_repositories` (fetcher.py:25, 27) only enters the request URL, which the given page sequence replaces; the default `top_n=5` is not modelled because the only caller (fetcher.py:56) passes every argument.
