/** The two `_.memoize` caches. Each is a map from the resolver's key to the
    stored result: a lookup that finds the key returns the stored result and
    calls nothing; a miss calls the wrapped function and stores what it
    returns. The options object passed as a third argument is not a
    parameter of `_.memoize`, so entries never expire. */
module Caches {
  import opened Blogs
  import opened Search

  /** The resolver of `memoizedFetch`: the same key for every call. */
  const FetchKey: string := "data"

  const SearchPrefix: string := "search_"

  /** `${query}` inside a template literal: an absent query renders as
      "undefined". */
  function QueryString(query: Query): string {
    match query
    case Absent => "undefined"
    case Given(t) => t
  }

  /** The resolver of `memoizedSearch`: `search_${query}`. The payload plays
      no part in it. */
  function SearchKey(query: Query): (k: string)
    ensures SearchPrefix <= k
  {
    SearchPrefix + QueryString(query)
  }

  /** The query text can be read back from its key. */
  lemma SearchKeyQuery(query: Query)
    ensures SearchKey(query)[|SearchPrefix|..] == QueryString(query)
  {
  }

  /** Two queries share a cache entry exactly when they render alike; in
      particular an absent query shares the entry of the text "undefined". */
  lemma SearchKeysCollide(q1: Query, q2: Query)
    ensures SearchKey(q1) == SearchKey(q2) <==> QueryString(q1) == QueryString(q2)
    ensures SearchKey(Absent) == SearchKey(Given("undefined"))
  {
    SearchKeyQuery(q1);
    SearchKeyQuery(q2);
  }

  /** `memoizedFetch`: the upstream is called at most once over the life of
      the process, and the promise it returned, fulfilled or rejected, is
      what every call gets. */
  class FetchCache {
    /** The upstream's answer to its n-th call, counting from 0. */
    const upstream: nat -> FetchResult
    /** The memoizer's map, from key to stored promise. */
    var entries: map<string, FetchResult>
    /** How many times the upstream has been called. */
    var upstreamCalls: nat

    ghost predicate Valid()
      reads this
    {
      || (upstreamCalls == 0 && entries == map[])
      || (upstreamCalls == 1 && entries == map[FetchKey := upstream(0)])
    }

    constructor (upstream: nat -> FetchResult)
      ensures Valid()
      ensures this.upstream == upstream && entries == map[] && upstreamCalls == 0
    {
      this.upstream := upstream;
      entries := map[];
      upstreamCalls := 0;
    }

    /** `await memoizedFetch()`: the first upstream answer, on every call;
        only the first call reaches the upstream. */
    method Get() returns (r: FetchResult)
      requires Valid()
      modifies this
      ensures Valid()
      ensures r == upstream(0)
      ensures upstreamCalls == 1 && entries == map[FetchKey := upstream(0)]
      ensures old(upstreamCalls) == 1 ==> unchanged(this)
    {
      var key := FetchKey;
      if key in entries {
        r := entries[key];
      } else {
        r := upstream(upstreamCalls);
        upstreamCalls := upstreamCalls + 1;
        entries := entries[key := r];
      }
    }
  }

  /** `memoizedSearch`: one stored array per distinct query text, whatever
      payload later calls pass. */
  class SearchCache {
    /** The memoizer's map, from key to stored array of records. */
    var entries: map<string, seq<Blog>>

    /** Every stored record matches the query text its key names. */
    ghost predicate Valid()
      reads this
    {
      forall k :: k in entries ==>
        SearchPrefix <= k &&
        forall b :: b in entries[k] ==> TitleMatches(b.title, Given(k[|SearchPrefix|..]))
    }

    constructor ()
      ensures Valid() && entries == map[]
    {
      entries := map[];
    }

    /** `memoizedSearch(data, query)`. On a hit, the stored array, with
        `data` unread. On a miss, the search over `data`, stored when it
        returns; when it throws, nothing is stored. */
    method Get(data: Payload, query: Query) returns (r: Completion<seq<Blog>>)
      requires Valid()
      modifies this
      ensures Valid()
      ensures SearchKey(query) in old(entries) ==>
        r == Returned(old(entries)[SearchKey(query)]) && entries == old(entries)
      ensures SearchKey(query) !in old(entries) ==>
        && r == SearchBlogs(data, query)
        && entries == if r.Returned? then old(entries)[SearchKey(query) := r.value] else old(entries)
      ensures r.Returned? ==>
        forall b :: b in r.value ==> TitleMatches(b.title, Given(QueryString(query)))
    {
      var key := SearchKey(query);
      SearchKeyQuery(query);
      if key in entries {
        r := Returned(entries[key]);
      } else {
        r := SearchBlogs(data, query);
        if r.Returned? {
          entries := entries[key := r.value];
        }
      }
    }
  }
}
