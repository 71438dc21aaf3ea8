# Blog statistics and search service, modelled in Dafny

The service (`app.js`) reads a blog collection from an upstream API, keeps it
in a memoized fetch cache, and serves two routes over it:

- `GET /api/blog-stats` checks that `req.data.blogs` is an array, then
  answers with the number of blogs, the blog with the longest title (by
  JavaScript `length`, in UTF-16 code units), the
  number of titles whose lowercase form starts with "privacy", and the
  titles de-duplicated case-insensitively.
- `GET /api/blog-search?query=q` goes through a second memoized function
  keyed by `search_${query}`. It keeps the records that have a title token
  equal to `q`. A token is a piece of the title split on `" "`, lowercased.

The model has one module per concern:

- `Text`: `toLowerCase` (ASCII), `split` on one character, `startsWith`,
  and `length` in UTF-16 code units.
- `Seqs`: `Array.prototype.filter` and the "subsequence" relation.
- `Blogs`: the records, the payload shapes, promise and throw outcomes.
- `Stats`: the stats computations and the stats handler.
- `Search`: the search predicate and the filter.
- `Caches`: the two memoize caches, each a class with a key-to-result
  `map` and a `Get` method.
- `Routes`: the middleware that fills `req.data` and the two routes.
- `Scenarios`: worked examples and multi-call client methods.

What the proofs establish, in the service's terms:

- The fetch cache calls the upstream at most once in the life of the
  process. Every call returns that first answer, whether it was fulfilled
  or rejected, because nothing expires and a rejected promise is stored
  like any other value.
- The search cache returns the stored array for a known key and ignores
  the payload it is given. Every record it ever returns matches the query
  text its key names. A request without a query shares the entry of the
  text "undefined".
- The search result is exactly the matching records: in input order, each
  as many times as it occurs. The query is not lowercased, so a query that
  holds an ASCII capital letter or a space finds nothing.
- The unique titles have pairwise different lowercase forms and cover
  every title's lowercase form. Each is the title of the first record with
  that lowercase form, and they are ordered by where those forms first
  occur, which fixes the array completely.
- The longest-title record is the earliest of the longest, with lengths
  counted in UTF-16 code units as `title.length` counts them. The privacy
  count is at most the total, and it is additive over concatenation.

On these points the model follows the code:

- There is no time-to-live. `_.memoize` takes only a function and a
  resolver, so the `{ maxAge }` argument is ignored.
- A failed fetch is stored. The stored value is the promise.
- Search returns whole records, not titles.
- The query is compared as given, not lowercased.
- Tokens come from `split(" ")`, so empty tokens are kept. There is no
  general whitespace tokenisation.
- On a fetch failure the middleware sends a 401 and still calls `next()`.
  The model keeps only the effect on `req.data`, which stays undefined.

## Model

| member | source | states |
|---|---|---|
| Text.Lower | app.js:35 | the lowercase form has the same length, holds no ASCII capital, and equals the input when case is ignored |
| Text.LowerIdempotent | app.js:35 | lowercasing twice is lowercasing once |
| Text.UpperIsNoLowerForm | app.js:35-36 | a string holding an ASCII capital letter is not the lowercase form of any string |
| Text.Utf16Length | app.js:80 | `length` counts UTF-16 code units: between one and two per character, and one per character exactly when no character lies beyond U+FFFF |
| Text.Utf16LengthChar | app.js:80 | a character beyond U+FFFF is two code units, any other one |
| Text.Utf16LengthAppend | app.js:80 | the `length` of a concatenation is the sum of the lengths, so with the row above it fixes `length` on every string |
| Text.Split | app.js:34 | `split(" ")` yields at least one piece, even for the empty title |
| Text.SplitPiecesLackSeparator | app.js:34 | no piece of `split(" ")` holds a space |
| Text.JoinSplit | app.js:34 | joining the pieces with the separator gives back the title, so splitting loses nothing |
| Text.SplitWithoutSeparator | app.js:34 | a title without a space is a single token |
| Text.SplitAtSeparator | app.js:34 | the pieces of `a + " " + b` are those of `a` followed by those of `b` |
| Seqs.Filter | app.js:32-37 | `filter` returns no more elements than its input; each one comes from the input and is accepted; every accepted input element is kept |
| Seqs.FilterIsSubseq | app.js:32-37 | the filtered elements keep their relative order |
| Seqs.FilterCount | app.js:32-37 | each accepted element is kept as many times as it occurs; a rejected one is never kept |
| Seqs.FilterAppend | app.js:81-83 | filtering a concatenation filters each part |
| Seqs.FilterKeepsAll | app.js:81-83 | nothing is dropped exactly when every element is accepted |
| Seqs.FilterNone | app.js:32-37 | when no element is accepted the result is empty |
| Stats.LongestFrom | app.js:80 | the `_.maxBy` scan ends at a record whose title `length` (UTF-16 units) is at least that of every title and strictly more than that of every earlier one |
| Stats.LongestTitleBlog | app.js:80 | undefined exactly for an empty array; otherwise a record of the array with a maximal title `length` in UTF-16 units, the first one among ties |
| Stats.StrictlyLongestChosen | app.js:80 | a record whose title is strictly longer than every other title is the one chosen |
| Stats.PrivacyCount | app.js:81-83 | the count of lowercase titles starting with "privacy" is at most the total; it is zero exactly when no title qualifies and the total exactly when all do |
| Stats.PrivacyCountAppend | app.js:81-83 | the count over a concatenation is the sum of the counts |
| Stats.PrivacyBlogsCount | app.js:81-83 | a qualifying record is counted as many times as it occurs; the others never |
| Stats.FirstIndex | app.js:84-86 | the first index whose record has the lowercase title `k` lies within the array and carries `k`, or is the array's length |
| Stats.FirstIndexIsFirst | app.js:84-86 | no record before that index has the lowercase title `k` |
| Stats.FirstIndexSnoc | app.js:84-86 | appending a record moves no existing first occurrence, and a new key first occurs at the appended record |
| Stats.FirstIndexAbsent | app.js:84-86 | a key has no first occurrence exactly when no record has it |
| Stats.UniqStep | app.js:84-86 | one step of `_.uniqWith` keeps its invariant: every consumed key covered, each kept record the first with its key, kept records ordered by their keys' first occurrences, input order |
| Stats.UniqWithFromInv | app.js:84-86 | the whole `_.uniqWith` loop establishes that invariant over the full array |
| Stats.UniqueTitles | app.js:84-87 | no two unique titles are equal once lowercased; every title's lowercase form is among them; each is the title of the first record with that lowercase form; they are ordered by the first occurrence of their lowercase forms; they are a subsequence of the titles; there are no more of them than blogs |
| Stats.BlogStats | app.js:76-93 | 400 with "Invalid data structure" exactly when `blogs` is not an array; otherwise total is the number of blogs, and the other three fields are the longest-title record, the privacy count and the unique titles of the array, as specified by their own rows |
| Search.SearchBlogs | app.js:31-38 | the search throws exactly when the payload has no `blogs` array; otherwise it returns records of that array, each matching the query, and no more of them than the array holds |
| Search.SearchKeepsOrder | app.js:31-38 | on an array, the result keeps the array's order |
| Search.SearchCounts | app.js:31-38 | on an array, the result holds every matching record as many times as it occurs, and no other record |
| Search.NothingMatches | app.js:32-37 | a search over an array none of whose titles matches returns the empty array |
| Search.AbsentQueryFindsNothing | app.js:36 | an absent query matches no token, so the search is empty |
| Search.UppercaseQueryFindsNothing | app.js:35-36 | the tokens are lowercased but the query is not, so a query with an ASCII capital letter finds nothing |
| Search.LowerKeepsSpaces | app.js:35 | lowercasing never turns a non-space into a space |
| Search.SpacedQueryFindsNothing | app.js:34-36 | no token holds a space, so a query holding one finds nothing |
| Search.OneWordTitle | app.js:33-36 | a title without a space is matched by its lowercase form and by no other query |
| Caches.SearchKey | app.js:40 | the search key starts with "search_" |
| Caches.SearchKeyQuery | app.js:40 | the query text can be read back from its key, so the key depends on the query alone |
| Caches.SearchKeysCollide | app.js:40 | two queries share an entry exactly when they render alike; an absent query shares the entry of "undefined" |
| Caches.FetchCache.constructor | app.js:9-28 | the cache starts empty, with no upstream call made |
| Caches.FetchCache.Get | app.js:9-28 | every call returns the upstream's first answer, fulfilled or rejected; afterwards exactly one upstream call has been made and the entry under "data" holds that answer; a call on a filled cache changes nothing |
| Caches.SearchCache.constructor | app.js:30-42 | the cache starts empty |
| Caches.SearchCache.Get | app.js:30-42 | a hit returns the stored array and leaves the map alone; a miss returns the search over the given payload and stores it only if the search returned; every array returned matches the query text; every stored record matches the query text its key names |
| Routes.AttachDataset | app.js:63-71 | `req.data` becomes the fetched body when the upstream's first answer was fulfilled, and is left as it was otherwise; afterwards the fetch cache has made exactly one upstream call and holds its answer, and a filled cache is not changed |
| Routes.BlogStatsRoute | app.js:75-95 | the stats route answers 400 exactly when `req.data.blogs` is not an array |
| Routes.BlogSearchRoute | app.js:109-117 | on a hit, 200 with the stored array and the cache unchanged; on a miss, 200 with the search result, which is stored, or 500 with "Error fetching search results." when the search throws, with nothing stored; the 500 happens exactly on a miss over a payload without a `blogs` array; every record returned matches the query text |
| Scenarios.WholeTokenMatches | app.js:32-37 | "Data Privacy Today" is found by "privacy" and by "today" |
| Scenarios.SubstringNoMatch | app.js:32-37 | "priv" does not find "Data Privacy Today": a substring is not a token |
| Scenarios.CapitalisedNoMatch | app.js:35-36 | "Privacy" as typed does not find "Data Privacy Today" |
| Scenarios.WideCharactersCountTwice | app.js:80 | of "😀😀" (two characters, four UTF-16 units) and "abc", the first is the longest |
| Scenarios.StatsExample | app.js:79-93 | for "Privacy Policy", "Hello World", "hello world": total 3, privacy count 1, unique titles "Privacy Policy" and "Hello World", longest "Privacy Policy" |
| Scenarios.RepeatedFetch | app.js:9-28 | three fetches make one upstream call and all get its answer |
| Scenarios.FetchFailureIsSticky | app.js:9-28 | after a rejected first fetch, `req.data` stays undefined on that request and on a later one, so the stats handler takes its 400 branch on both (the 401 the client receives is left out) |
| Scenarios.RepeatedSearch | app.js:30-42 | a second search with the same query gets the first result, whatever payload it passes |
| Scenarios.AbsentQueryReadsUndefinedEntry | app.js:40 | a request without a query gets what a search for "undefined" stored |
| Scenarios.ThrowIsNotStored | app.js:30-42 | a search that throws stores nothing, so the next call searches again |

The following definitions carry no contract of their own; the rows of the
members that state properties of them cover them: `Text.LowerAll` (the
`map` of `toLowerCase`, app.js:35), `Text.StartsWith` (app.js:82),
`Search.Tokens` and `Search.TitleMatches` (the filter callback,
app.js:33-36), `Caches.QueryString` (the template literal, app.js:40),
`Stats.Titles` (the final `map`, app.js:87), `Stats.Key`, `Stats.Keys`,
`Stats.UniqWithFrom` and `Stats.UniqWith` (`_.uniqWith`, app.js:84-86),
`Stats.IsPrivacyBlog` and `Stats.PrivacyBlogs` (app.js:81-83).

## Left out

- Express setup, routing, response serialisation and `app.listen`: framework plumbing. The responses are plain data values here.
- The axios request, the `x-hasura-admin-secret` header from `process.env` and network failures: I/O. The upstream is a parameter, a function from the call number to a fulfilled or rejected result.
- The 401 response that `middleware2` sends on a failed fetch, and the handler that still runs after it: HTTP flow control. Only the effect on `req.data` is modelled. The client of such a request receives the 401; the 400 the stats handler then tries to send cannot go out.
- Strings holding unpaired UTF-16 surrogates, which JavaScript allows: a title is a sequence of Unicode scalar values, and its `length` is computed from them.
- The unused `middleware` and the commented-out uncached search route: dead code.
- Concurrency. Calls are modelled one at a time. The fetch cache stores the promise as soon as the first call starts, before it settles.
- Unicode case mapping: `toLowerCase` is modelled on ASCII letters only.
- Query values that are arrays or objects (repeated or bracketed query parameters): the query is absent or a string.
- Records whose `title` is missing or not a string, which make the handlers throw: every record has a string title.
- Time-based expiry: the code has none.
