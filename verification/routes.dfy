/** The request pipeline and the two routes: the middleware that attaches
    the cached upstream body to `req.data`, `GET /api/blog-stats` and
    `GET /api/blog-search`. Only the values the routes compute are modelled;
    the HTTP responses themselves are plain data here. */
module Routes {
  import opened Blogs
  import opened Search
  import opened Caches
  import Stats

  /** The part of an Express request the routes read. */
  class Request {
    /** `req.data`, undefined until the middleware sets it. */
    var data: Payload

    constructor ()
      ensures data == Undefined
    {
      data := Undefined;
    }
  }

  /** `middleware2`: awaits the fetch cache and, when the promise is
      fulfilled, sets `req.data` to its body. When it is rejected `req.data`
      is left as it was. */
  method AttachDataset(req: Request, cache: FetchCache)
    requires cache.Valid()
    modifies req, cache
    ensures cache.Valid()
    ensures cache.upstreamCalls == 1 && cache.entries == map[FetchKey := cache.upstream(0)]
    ensures old(cache.upstreamCalls) == 1 ==> unchanged(cache)
    ensures req.data == if cache.upstream(0).Fulfilled? then cache.upstream(0).payload else old(req.data)
  {
    var r := cache.Get();
    if r.Fulfilled? {
      req.data := r.payload;
    }
  }

  /** `GET /api/blog-stats` on the request the middleware prepared. */
  function BlogStatsRoute(req: Request): (r: Stats.StatsResponse)
    reads req
    ensures r.BadRequest? <==> !WellShaped(req.data)
  {
    Stats.BlogStats(req.data)
  }

  datatype SearchResponse = Found(results: seq<Blog>) | ServerError(error: string)

  const SearchFailed: string := "Error fetching search results."

  /** `GET /api/blog-search`: on a hit, the stored records; on a miss, the
      search over `req.data`, stored when it returns, and a 500 with a fixed
      message when it throws, which happens only over a payload without a
      `blogs` array. Every record returned matches
      the query text, even one stored by an earlier call with another
      payload. */
  method BlogSearchRoute(cache: SearchCache, req: Request, query: Query) returns (resp: SearchResponse)
    requires cache.Valid()
    modifies cache
    ensures cache.Valid()
    ensures SearchKey(query) in old(cache.entries) ==>
      resp == Found(old(cache.entries)[SearchKey(query)]) && cache.entries == old(cache.entries)
    ensures SearchKey(query) !in old(cache.entries) ==>
      var r := SearchBlogs(req.data, query);
      && resp == (if r.Returned? then Found(r.value) else ServerError(SearchFailed))
      && cache.entries == if r.Returned? then old(cache.entries)[SearchKey(query) := r.value] else old(cache.entries)
    ensures resp.ServerError? <==> SearchKey(query) !in old(cache.entries) && !WellShaped(req.data)
    ensures resp.ServerError? ==> resp.error == SearchFailed
    ensures resp.Found? ==> forall b :: b in resp.results ==> TitleMatches(b.title, Given(QueryString(query)))
  {
    var r := cache.Get(req.data, query);
    if r.Returned? {
      resp := Found(r.value);
    } else {
      resp := ServerError(SearchFailed);
    }
  }
}
