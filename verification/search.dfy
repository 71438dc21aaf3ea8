/** The function that `memoizedSearch` wraps: keep the records one of whose
    title tokens (the title split on a single space, each piece lowercased)
    equals the query exactly. The query itself is compared as given, without
    lowercasing, and whole records are returned. */
module Search {
  import opened Text
  import opened Seqs
  import opened Blogs

  /** `req.query.query`: absent, or a string. */
  datatype Query = Absent | Given(text: string)

  const Space: char := ' '

  /** `title.split(" ").map(t => t.toLowerCase())` */
  function Tokens(title: string): seq<string> {
    LowerAll(Split(title, Space))
  }

  /** `tokens.includes(query)`: an absent query equals no string. */
  predicate TitleMatches(title: string, query: Query) {
    query.Given? && query.text in Tokens(title)
  }

  /** `data.blogs.filter(...)`: throws unless `data` is an object whose
      `blogs` is an array; otherwise returns records of that array only, each
      of them matching the query. */
  function SearchBlogs(data: Payload, query: Query): (r: Completion<seq<Blog>>)
    ensures r.Returned? <==> WellShaped(data)
    ensures r.Returned? ==> |r.value| <= |data.blogs.items|
    ensures r.Returned? ==> forall i :: 0 <= i < |r.value| ==>
      r.value[i] in data.blogs.items && TitleMatches(r.value[i].title, query)
  {
    if WellShaped(data) then Returned(Filter(data.blogs.items, (b: Blog) => TitleMatches(b.title, query)))
    else Threw
  }

  /** On an array, the search keeps the array's order. */
  lemma SearchKeepsOrder(items: seq<Blog>, query: Query)
    ensures SearchBlogs(Object(Array(items)), query).Returned?
    ensures Subseq(SearchBlogs(Object(Array(items)), query).value, items)
  {
    FilterIsSubseq(items, (b: Blog) => TitleMatches(b.title, query));
  }

  /** On an array, the search returns each matching record as often as it
      occurs and no other record. */
  lemma SearchCounts(items: seq<Blog>, query: Query, x: Blog)
    ensures SearchBlogs(Object(Array(items)), query).Returned?
    ensures multiset(SearchBlogs(Object(Array(items)), query).value)[x] ==
      if TitleMatches(x.title, query) then multiset(items)[x] else 0
  {
    FilterCount(items, (b: Blog) => TitleMatches(b.title, query), x);
  }

  /** A search that no title of the array matches returns the empty array. */
  lemma {:induction false} NothingMatches(data: Payload, query: Query)
    requires WellShaped(data)
    requires forall i :: 0 <= i < |data.blogs.items| ==> !TitleMatches(data.blogs.items[i].title, query)
    ensures SearchBlogs(data, query) == Returned([])
  {
    FilterNone(data.blogs.items, (b: Blog) => TitleMatches(b.title, query));
  }

  /** An absent query matches nothing. */
  lemma AbsentQueryFindsNothing(data: Payload)
    requires WellShaped(data)
    ensures SearchBlogs(data, Absent) == Returned([])
  {
    NothingMatches(data, Absent);
  }

  /** The query is not lowercased, while the tokens are: a query holding a
      capital letter matches nothing. */
  lemma UppercaseQueryFindsNothing(data: Payload, q: string, i: int)
    requires WellShaped(data)
    requires 0 <= i < |q| && IsUpper(q[i])
    ensures SearchBlogs(data, Given(q)) == Returned([])
  {
    forall b: Blog
      ensures !TitleMatches(b.title, Given(q))
    {
      var ts := Split(b.title, Space);
      forall k | 0 <= k < |ts|
        ensures Tokens(b.title)[k] != q
      {
        UpperIsNoLowerForm(q, ts[k], i);
      }
    }
    NothingMatches(data, Given(q));
  }

  /** Lowercasing never produces a space from a non-space. */
  lemma {:induction false} LowerKeepsSpaces(t: string)
    requires Space !in t
    ensures Space !in Lower(t)
  {
    forall i | 0 <= i < |t|
      ensures Lower(t)[i] != Space
    {
      assert LowerChar(Lower(t)[i]) == LowerChar(t[i]);
    }
  }

  /** Tokens never hold a space, so a query holding one matches nothing. */
  lemma SpacedQueryFindsNothing(data: Payload, q: string)
    requires WellShaped(data)
    requires Space in q
    ensures SearchBlogs(data, Given(q)) == Returned([])
  {
    forall b: Blog
      ensures !TitleMatches(b.title, Given(q))
    {
      var ts := Split(b.title, Space);
      SplitPiecesLackSeparator(b.title, Space);
      forall k | 0 <= k < |ts|
        ensures Tokens(b.title)[k] != q
      {
        LowerKeepsSpaces(ts[k]);
      }
    }
    NothingMatches(data, Given(q));
  }

  /** A title without a space is a single token: it is matched by its
      lowercase form and by nothing else. */
  lemma OneWordTitle(title: string, q: string)
    requires Space !in title
    ensures TitleMatches(title, Given(q)) <==> q == Lower(title)
  {
    SplitWithoutSeparator(title, Space);
    assert Tokens(title) == [Lower(title)];
  }
}
