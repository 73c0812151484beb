# Reddit hot-listing walkers, modelled in Dafny

The repository is four small Python scripts that query Reddit's JSON API.
Two functions contain logic worth proving, and this project models them:

- `recurse(subreddit, hot_list=[], after=None)` follows the listing's
  `after` cursor page by page. It extends `hot_list` in place with every
  post title and returns that same list. It returns `None` as soon as a page
  comes back with a status other than 200.
- `count_words(subreddit, word_list, counts=None, after=None)` walks the same
  pages. It lowercases and whitespace-splits every title. It adds, for every
  keyword, the number of tokens equal to the lowercased keyword into a
  `Counter`, which is threaded through the recursion. After the last page it
  prints `word: count` for every positive count, by count descending, ties
  by keyword ascending.

The HTTP server is replaced by `Listing.Server`. It holds a finite sequence
of decoded responses and hands them out in request order. A ghost trace
`sent` records the cursor each request carried. A response keeps every
optional field the scripts read with `.get(key, default)`:

- `Response(status, data?)`
- `Body(children?, after?)`
- `Child(data?)`
- `Post(title?)`

A missing title reads as `""`. A missing `children` reads as no posts. A
missing or empty `after` ends the walk.

Modules:

- `Listing` (`listing.dfy`): the response shape, field access with defaults,
  cursor truthiness, and the server.
- `Pagination` (`pagination.dfy`): `recurse`, modelled as a recursive method
  over a `TitleList` object that it extends in place. It also models the
  function object `RecurseFunction`, whose default list is created once, and
  the walk's specification functions (`Steps`, `Succeeds`, `Collected`,
  `Cursors`) with their lemmas.
- `Text` (`text.dfy`): ASCII `str.lower()`, `str.split()`, `list.count`,
  Python's `str` ordering, and decimal rendering of counts.
- `Counts` (`counts.dfy`): `Counter` as an insertion-ordered list of
  `(key, count)` items, and `+=` on one key (`Bump`).
- `KeywordCount` (`keywordcount.dfy`): `count_words`. Its nested loops are
  the methods `CountPageInto` and `CountTitleInto`. The module also holds the
  `sorted(..., key=lambda x: (-x[1], x[0]))` step, the print loop, and the
  counting and report lemmas.

`recurse` is duplicated verbatim in `api_advanced/3-count.py:79-114`. The
one model `Pagination.Recurse` stands for both copies.

The model follows the code, including two behaviours the `recurse` docstring does not suggest:

- A call does not get a fresh accumulator. The default
  `hot_list` is shared across calls (`Pagination.TwoTopLevelCalls`).
- Partial results are not discarded. On a failing page `recurse`
  returns `None`, but `hot_list` keeps the titles of the earlier pages
  (`Pagination.Recurse`, `Pagination.CollectedOnFailure`).
- The same holds for a `Counter` passed in by the caller
  (`KeywordCount.CountWords`).

## Model

| member | source | states |
|---|---|---|
| `Listing.TitleOf` | api_advanced/2-recurse.py:99 | a post's title, `""` when its `data` object or its `title` is missing |
| `Listing.Children` | api_advanced/2-recurse.py:98 | a page's `children`, no posts when the `data` object or `children` is missing |
| `Listing.After` | api_advanced/2-recurse.py:100 | a page's `after` cursor, None when the `data` object or `after` is missing |
| `Listing.Truthy` | api_advanced/2-recurse.py:90-91 | Python truthiness of the cursor: None and `""` are false, every other string true |
| `Listing.Sent` | api_advanced/2-recurse.py:89-91 | the cursor the request URL carries: the caller's cursor when truthy, none otherwise |
| `Listing.TitlesOf` | api_advanced/2-recurse.py:98-99 | one title per child, in child order; a child missing `data` or `title` gives `""` |
| `Listing.Server.Get` | api_advanced/2-recurse.py:89-94 | each request consumes the next response in order and records the cursor it carried |
| `Pagination.TitleList.Extend` | api_advanced/2-recurse.py:99 | `hot_list.extend` appends the given titles, in order, to the one list object |
| `Pagination.Steps` | api_advanced/2-recurse.py:100-104 | the walk makes at least one request and never more than there are responses |
| `Pagination.Recurse` | api_advanced/2-recurse.py:71-106 | `hot_list` is extended in place with the titles of every page fetched with status 200, failing pages' predecessors included; the result is that same object on success and None exactly when some requested page was not 200; the cursors sent are the threaded `after` values |
| `Pagination.RecurseFunction.Call` | api_advanced/2-recurse.py:71 | a call that omits `hot_list` extends the one default list created with the function |
| `Pagination.TwoTopLevelCalls` | api_advanced/2-recurse.py:71-104 | two top-level calls return the same list object, holding the first call's titles followed by the second's |
| `Pagination.RecurseFresh` | api_advanced/2-recurse.py:71-106 | with a list allocated per call, a successful call returns a fresh list holding exactly its own titles |
| `Pagination.TwoFreshCalls` | api_advanced/2-recurse.py:71-106 | with fresh lists, two successful calls return different lists, each holding only its own titles |
| `Pagination.StepsReachFirstLastPage` | api_advanced/2-recurse.py:96-106 | requests stop at the first page that fails or has a falsy `after`, and at no earlier page |
| `Pagination.SucceedsIffAllOk` | api_advanced/2-recurse.py:96-106 | the walk succeeds iff every requested page has status 200, iff the last requested page does |
| `Pagination.CursorsThread` | api_advanced/2-recurse.py:89-91 | one cursor per request; the first request carries the caller's cursor (none at top level); every later one carries the previous page's truthy `after` |
| `Pagination.CollectedOnSuccess` | api_advanced/2-recurse.py:98-104 | on success the appended titles are all requested pages' titles, pages in request order |
| `Pagination.CollectedOnFailure` | api_advanced/2-recurse.py:99-106 | on failure the titles of every page before the failing one remain appended, in order |
| `Pagination.TitlesOfPagesLength` | api_advanced/2-recurse.py:99 | the titles of the first n pages number exactly their children |
| `Pagination.SuccessLength` | api_advanced/2-recurse.py:99 | on success the list grows by the total number of children across the fetched pages |
| `Text.IsSpace` | api_advanced/3-count.py:151 | the ASCII characters `str.split()` splits on: tab, line feed, vertical tab, form feed, carriage return, 0x1C-0x1F and space |
| `Text.StrLess` | api_advanced/3-count.py:160 | Python's `<` on `str`: lexicographic by code point, a proper prefix first |
| `Text.Lower` | api_advanced/3-count.py:151 | same length; each character is lowered, ASCII letters only |
| `Text.LowerIdempotent` | api_advanced/3-count.py:151-153 | lowering is idempotent and leaves no upper-case letter |
| `Text.WordLen` | api_advanced/3-count.py:151 | the leading run of non-whitespace is maximal |
| `Text.Split` | api_advanced/3-count.py:151 | every token is non-empty and free of whitespace |
| `Text.SplitKeepsText` | api_advanced/3-count.py:151 | the tokens concatenated are exactly the non-whitespace characters, in order |
| `Text.SplitWord` | api_advanced/3-count.py:151 | a non-empty word without whitespace is a single token |
| `Text.SplitAtSpace` | api_advanced/3-count.py:151 | splitting at a whitespace character concatenates the token lists of both sides |
| `Text.Occurrences` | api_advanced/3-count.py:154 | `list.count` is the multiplicity of the element in the token list |
| `Text.OccurrencesAppend` | api_advanced/3-count.py:154 | counting over a concatenation adds the two counts |
| `Text.StrLessIrreflexive` | api_advanced/3-count.py:160 | no keyword sorts before itself |
| `Text.StrLessTransitive` | api_advanced/3-count.py:160 | the keyword order is transitive |
| `Text.StrLessTotal` | api_advanced/3-count.py:160 | two different keywords are ordered exactly one way |
| `Text.NatToString` | api_advanced/3-count.py:163 | the rendered count is a non-empty digit string without leading zero |
| `Text.NatToStringRoundTrip` | api_advanced/3-count.py:163 | reading the rendered digits back gives the count |
| `Counts.Lookup` | api_advanced/3-count.py:154 | `counts[k]` reads the stored count, 0 for a key never written |
| `Counts.Bump` | api_advanced/3-count.py:154 | `+=` raises one key's count by n and changes no other; a new key is appended; keys stay unique |
| `Counts.Counter.Add` | api_advanced/3-count.py:154 | `counts[k] += n` on the Counter object leaves its items at `Bump` of the old ones, keys unique |
| `Counts.LookupAt` | api_advanced/3-count.py:154-160 | with unique keys every item's count is what indexing the Counter by its key reads |
| `Counts.NoRepeatedItem` | api_advanced/3-count.py:160 | `counts.items()` repeats no item |
| `KeywordCount.Tokens` | api_advanced/3-count.py:151 | `title.lower().split()`: non-empty whitespace-free tokens that together are the lowered title's non-whitespace characters, in order |
| `KeywordCount.CountTitle` | api_advanced/3-count.py:152-154 | the inner loop keeps the Counter's keys unique |
| `KeywordCount.CountTitles` | api_advanced/3-count.py:150-154 | the outer loop over the posts, the inner loop once per title in order; keeps keys unique |
| `KeywordCount.CountWalk` | api_advanced/3-count.py:139-158 | the Counter threaded through the recursion: every page fetched with status 200 is counted, a failing page stops the walk; keeps keys unique |
| `KeywordCount.CountTitleInto` | api_advanced/3-count.py:152-154 | the inner loop leaves the Counter at `CountTitle` of its old items |
| `KeywordCount.CountPageInto` | api_advanced/3-count.py:150-154 | the outer loop leaves the Counter at `CountTitles` of its old items over the page's titles |
| `KeywordCount.CountTitleLookup` | api_advanced/3-count.py:152-154 | one title adds to a key exactly its matches, once per keyword lowering to that key |
| `KeywordCount.CountTitlesLookup` | api_advanced/3-count.py:150-154 | the outer loop adds to a key the matches of every title |
| `KeywordCount.TitleMatchesProduct` | api_advanced/3-count.py:152-154 | one title's contribution is (number of listings of the keyword) times (its equal tokens) |
| `KeywordCount.MatchesProduct` | api_advanced/3-count.py:150-154 | a list of titles contributes (number of listings) times (equal tokens over all titles) |
| `KeywordCount.MatchesAppend` | api_advanced/3-count.py:150-154 | the matches of two title lists, one after the other, add up |
| `KeywordCount.CountWalkCountsCollected` | api_advanced/3-count.py:146-158 | counting page by page during the walk equals counting the title list `recurse` collects from the same responses |
| `KeywordCount.CountWalkLookup` | api_advanced/3-count.py:136-158 | final count = initial count + listings of the keyword times its equal tokens across every fetched title |
| `KeywordCount.FreshCountsFromZero` | api_advanced/3-count.py:136-137 | with `counts=None` the counts are those of this walk alone |
| `KeywordCount.MatchesMultiset` | api_advanced/3-count.py:150-154 | the matches of a list of titles depend only on which titles it holds, not their order |
| `KeywordCount.PageOrderIrrelevant` | api_advanced/3-count.py:150-158 | any reordering of the same titles (the same multiset, e.g. the pages in another order) leaves every key's count unchanged |
| `KeywordCount.RepeatedKeywordCountsTwice` | api_advanced/3-count.py:152-154 | a keyword listed twice up to case adds its matches twice to the one lowered key |
| `KeywordCount.TwoWords` | api_advanced/3-count.py:151 | two words separated by one space split into exactly those words |
| `KeywordCount.ExampleTokens` | api_advanced/3-count.py:151 | "the Cat" tokenizes to the, cat |
| `KeywordCount.WholeTokenMatch` | api_advanced/3-count.py:151-154 | "the Cat" counts `cat` once and `at` not at all |
| `KeywordCount.Insert` | api_advanced/3-count.py:160 | inserting into a sorted list keeps it sorted and adds exactly that entry |
| `KeywordCount.SortByKey` | api_advanced/3-count.py:160 | the sort yields a permutation of the items ordered by (-count, word) |
| `KeywordCount.Positive` | api_advanced/3-count.py:161-162 | exactly the entries with count > 0 are kept |
| `KeywordCount.PositiveKeepsOrder` | api_advanced/3-count.py:160-162 | dropping zero counts keeps the strict order |
| `KeywordCount.SortedWithoutRepeatsIsStrict` | api_advanced/3-count.py:160 | a sorted list that repeats no entry is strictly ordered |
| `KeywordCount.StrictlySortedUnique` | api_advanced/3-count.py:160 | two strictly ordered lists with the same entries are equal, so the report order is total |
| `KeywordCount.SortKeepsItems` | api_advanced/3-count.py:160 | the sorted list holds exactly the Counter's items, strictly ordered |
| `KeywordCount.ReportEntriesSpec` | api_advanced/3-count.py:160-163 | the report holds exactly the positive items, each once, by count descending, ties by keyword ascending |
| `KeywordCount.ReportEntries` | api_advanced/3-count.py:160-162 | the sorted items with a positive count, in sorted order |
| `KeywordCount.Line` | api_advanced/3-count.py:163 | one printed line, `word: count` with the count in decimal |
| `KeywordCount.Report` | api_advanced/3-count.py:160-163 | the lines the last page prints for the final counts |
| `KeywordCount.Lines` | api_advanced/3-count.py:163 | one `word: count` line per entry, in order |
| `KeywordCount.EmptyReport` | api_advanced/3-count.py:161-163 | with no keywords or no posts nothing is printed |
| `KeywordCount.SortLawExample` | api_advanced/3-count.py:160-162 | dog 3, cat 3, fox 1 report as cat, dog, fox |
| `KeywordCount.PrintReport` | api_advanced/3-count.py:161-163 | the print loop emits `Lines(Positive(sorted))` |
| `KeywordCount.CountWords` | api_advanced/3-count.py:117-165 | cursors as in `recurse`; a caller's Counter ends at the walk's counts; the output is the report of the final counts iff every page was 200, and nothing otherwise |

## Left out

- `number_of_subscribers` and `top_ten` (in `api_advanced/2-recurse.py` and `api_advanced/3-count.py`, also in `api_advanced/0-subs.py` (`number_of_subscribers`) and `api_advanced/1-top_ten.py` (both)) each make one request and read one field or print one loop over one page. They hold no pagination or counting logic and are not modelled.
- HTTP, URL building, headers, `allow_redirects=False` and `response.json()` are replaced by the `Server` response sequence. A non-JSON body, or a JSON value of an unexpected type, is not modelled.
- Unbounded pagination is out. Every walk requires `Ends`: some response within the finite sequence stops the walk. The scripts instead rely on the API eventually omitting `after`.
- Python's `RecursionError` on very deep walks is not modelled.
- `str.lower()` is modelled on ASCII letters only. `str.split()` splits on the ASCII whitespace set: tab, line feed, vertical tab, form feed, carriage return, 0x1C-0x1F and space. Unicode case mappings and Unicode whitespace are not modelled.
- `print` is modelled as the lines a call returns, not as real stdout. `count_words` itself returns `None` on every path, so the lines are its only observable result.
- A caller-supplied `counts` is modelled as a `Counter`. A plain `dict` would raise `KeyError` on a new key; that path is not modelled.
- Stability of `sorted` is not stated. The Counter's keys are unique, so no two items tie under the key.

## Findings

| source | as written | input that shows it | evidently intended | confidence | as-written member | corrected member |
|---|---|---|---|---|---|---|
| api_advanced/2-recurse.py:71 | `hot_list=[]` is evaluated once; every top-level call extends that one list | two top-level calls on listings with titles A and B: the second returns [A, B], and both results are the same object | the docstring says the default is an empty list, so each call should start empty and return only its own titles | high (not executed) | `Pagination.TwoTopLevelCalls` | `Pagination.TwoFreshCalls` |
