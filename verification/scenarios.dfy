/** Worked examples: properties of the model proved on concrete inputs, and
    client methods that call the caches and routes several times. */
module Scenarios {
  import opened Text
  import opened Seqs
  import opened Blogs
  import opened Search
  import opened Stats
  import opened Caches
  import opened Routes

  /** Three words joined by single spaces split back into those words. */
  lemma ThreeWords(a: string, b: string, c: string)
    requires Space !in a && Space !in b && Space !in c
    ensures Split(a + [Space] + b + [Space] + c, Space) == [a, b, c]
  {
    SplitAtSeparator(a, Space, b + [Space] + c);
    SplitAtSeparator(b, Space, c);
    SplitWithoutSeparator(a, Space);
    SplitWithoutSeparator(b, Space);
    SplitWithoutSeparator(c, Space);
    assert a + [Space] + b + [Space] + c == a + [Space] + (b + [Space] + c);
  }

  lemma ExampleWords()
    ensures Split("Data Privacy Today", Space) == ["Data", "Privacy", "Today"]
  {
    ThreeWords("Data", "Privacy", "Today");
    assert "Data Privacy Today" == "Data" + [Space] + "Privacy" + [Space] + "Today";
  }

  lemma ExampleLowerWords()
    ensures LowerAll(["Data", "Privacy", "Today"]) == ["data", "privacy", "today"]
  {
    var words := ["Data", "Privacy", "Today"];
    assert Lower("Data") == "data";
    assert Lower("Privacy") == "privacy";
    assert Lower("Today") == "today";
    assert LowerAll(words)[0] == Lower(words[0]);
  }

  /** "Data Privacy Today" is found by each of its words, lowercased. */
  lemma WholeTokenMatches(title: string)
    requires title == "Data Privacy Today"
    ensures TitleMatches(title, Given("privacy"))
    ensures TitleMatches(title, Given("today"))
  {
    ExampleTokens(title);
    assert Tokens(title)[1] == "privacy" && Tokens(title)[2] == "today";
  }

  /** The tokens of "Data Privacy Today". */
  lemma ExampleTokens(title: string)
    requires title == "Data Privacy Today"
    ensures Tokens(title) == ["data", "privacy", "today"]
  {
    ExampleWords();
    ExampleLowerWords();
  }

  /** A substring of a word is not a token: "priv" does not find
      "Data Privacy Today". */
  lemma SubstringNoMatch(title: string)
    requires title == "Data Privacy Today"
    ensures !TitleMatches(title, Given("priv"))
  {
    ExampleTokens(title);
    var ts: seq<string> := ["data", "privacy", "today"];
    forall k | 0 <= k < |ts|
      ensures ts[k] != "priv"
    {
      if k == 0 {
        assert ts[k][0] == 'd';
      } else {
        assert |ts[k]| != 4;
      }
    }
  }

  /** The query is not lowercased: "Privacy" as typed does not find
      "Data Privacy Today". */
  lemma CapitalisedNoMatch(title: string)
    requires title == "Data Privacy Today"
    ensures !TitleMatches(title, Given("Privacy"))
  {
    var ts := Split(title, Space);
    forall k | 0 <= k < |ts|
      ensures Tokens(title)[k] != "Privacy"
    {
      UpperIsNoLowerForm("Privacy", ts[k], 0);
    }
  }

  lemma StatsExampleLower()
    ensures Lower("Privacy Policy") == "privacy policy"
    ensures Lower("Hello World") == "hello world"
    ensures Lower("hello world") == "hello world"
  {
  }

  lemma ExamplePrivacy(bs: seq<Blog>)
    requires bs == [Blog("Privacy Policy", map[]), Blog("Hello World", map[]), Blog("hello world", map[])]
    ensures PrivacyCount(bs) == 1
  {
    StatsExampleLower();
    assert Lower(bs[1].title)[0] == 'h' && Lower(bs[2].title)[0] == 'h';
    assert IsPrivacyBlog(bs[0]) && !IsPrivacyBlog(bs[1]) && !IsPrivacyBlog(bs[2]);
    var keep := (b: Blog) => IsPrivacyBlog(b);
    assert Filter(bs[3..], keep) == [];
    assert bs[2..][1..] == bs[3..];
    assert Filter(bs[2..], keep) == [];
    assert bs[1..][1..] == bs[2..];
    assert Filter(bs[1..], keep) == [];
    assert Filter(bs, keep) == [bs[0]];
  }

  lemma ExampleUnique(bs: seq<Blog>)
    requires bs == [Blog("Privacy Policy", map[]), Blog("Hello World", map[]), Blog("hello world", map[])]
    ensures UniqueTitles(bs) == ["Privacy Policy", "Hello World"]
  {
    StatsExampleLower();
    var s1 := [bs[0]];
    var s2 := [bs[0], bs[1]];
    assert Keys([]) == [];
    assert Keys(s1) == ["privacy policy"];
    assert Keys(s2) == ["privacy policy", "hello world"];
    assert UniqWithFrom(bs[3..], s2) == s2;
    assert bs[2..][1..] == bs[3..];
    assert UniqWithFrom(bs[2..], s2) == s2;
    assert bs[1..][1..] == bs[2..];
    assert Key(bs[2]) == "hello world" && Key(bs[1]) == "hello world" && Key(bs[0]) == "privacy policy";
    assert Key(bs[2]) in Keys(s2);
    assert Key(bs[1]) !in Keys(s1);
    assert s1 + [bs[1]] == s2;
    assert UniqWithFrom(bs[1..], s1) == s2;
    assert [] + [bs[0]] == s1;
    assert UniqWith(bs) == s2;
    assert Titles(s2) == ["Privacy Policy", "Hello World"];
  }

  /** "Privacy Policy" holds no character beyond U+FFFF, so its `length`
      is its number of characters. */
  lemma PrivacyPolicyLength(t: string)
    requires t == "Privacy Policy"
    ensures Utf16Length(t) == 14
  {
    assert forall i :: 0 <= i < |t| ==> t[i] as int <= 0xFFFF;
  }

  lemma HelloWorldLength(t: string)
    requires t == "Hello World"
    ensures Utf16Length(t) == 11
  {
    assert forall i :: 0 <= i < |t| ==> t[i] as int <= 0xFFFF;
  }

  lemma LowerHelloWorldLength(t: string)
    requires t == "hello world"
    ensures Utf16Length(t) == 11
  {
    assert forall i :: 0 <= i < |t| ==> t[i] as int <= 0xFFFF;
  }

  /** The `length` of each example title. */
  lemma ExampleTitleLength(bs: seq<Blog>, i: nat)
    requires |bs| == 3 && bs[0].title == "Privacy Policy" && bs[1].title == "Hello World" && bs[2].title == "hello world"
    requires i < 3
    ensures TitleLength(bs[i]) == if i == 0 then 14 else 11
  {
    if i == 0 {
      PrivacyPolicyLength(bs[0].title);
    } else if i == 1 {
      HelloWorldLength(bs[1].title);
    } else {
      LowerHelloWorldLength(bs[2].title);
    }
  }

  /** Of three records whose titles are 14, 11 and 11 units long, the
      first is the longest. */
  lemma FirstOfThreeLongest(bs: seq<Blog>)
    requires |bs| == 3
    requires TitleLength(bs[0]) == 14 && TitleLength(bs[1]) == 11 && TitleLength(bs[2]) == 11
    ensures LongestTitleBlog(bs) == Some(bs[0])
  {
    StrictlyLongestChosen(bs, 0);
  }

  lemma ExampleTitlesLongest(bs: seq<Blog>)
    requires |bs| == 3 && bs[0].title == "Privacy Policy" && bs[1].title == "Hello World" && bs[2].title == "hello world"
    ensures LongestTitleBlog(bs) == Some(bs[0])
  {
    ExampleTitleLength(bs, 0);
    ExampleTitleLength(bs, 1);
    ExampleTitleLength(bs, 2);
    FirstOfThreeLongest(bs);
  }

  lemma ExampleLongest(bs: seq<Blog>)
    requires bs == [Blog("Privacy Policy", map[]), Blog("Hello World", map[]), Blog("hello world", map[])]
    ensures LongestTitleBlog(bs) == Some(bs[0])
  {
    ExampleTitlesLongest(bs);
  }

  lemma AbcLength(t: string)
    requires t == "abc"
    ensures Utf16Length(t) == 3
  {
    assert forall i :: 0 <= i < |t| ==> t[i] as int <= 0xFFFF;
  }

  /** `title.length` counts UTF-16 code units: two emoji beyond U+FFFF are
      four units, which beats the three of "abc", so the first record is
      the longest although it has fewer characters. */
  lemma WideCharactersCountTwice(bs: seq<Blog>)
    requires bs == [Blog("\U{1F600}\U{1F600}", map[]), Blog("abc", map[])]
    ensures |bs[0].title| < |bs[1].title|
    ensures LongestTitleBlog(bs) == Some(bs[0])
  {
    assert bs[0].title[1..][1..] == [];
    forall j | 0 <= j < |bs| && j != 0
      ensures TitleLength(bs[j]) < TitleLength(bs[0])
    {
      AbcLength(bs[1].title);
    }
    StrictlyLongestChosen(bs, 0);
  }

  /** Three records, the last a case-insensitive duplicate of the second:
      three in total, one "privacy" title, the second duplicate dropped with
      the first casing kept, and "Privacy Policy" (14 characters) the
      longest. */
  lemma StatsExample(bs: seq<Blog>)
    requires bs == [Blog("Privacy Policy", map[]), Blog("Hello World", map[]), Blog("hello world", map[])]
    ensures BlogStats(Object(Array(bs))) == Stats(3, Some(bs[0]), 1, ["Privacy Policy", "Hello World"])
  {
    ExamplePrivacy(bs);
    ExampleUnique(bs);
    ExampleLongest(bs);
  }

  /** Three fetches, one upstream call: each gets the first answer, a
      rejection included. */
  method RepeatedFetch(upstream: nat -> FetchResult) returns (answers: seq<FetchResult>, calls: nat)
    ensures answers == [upstream(0), upstream(0), upstream(0)]
    ensures calls == 1
  {
    var cache := new FetchCache(upstream);
    var a := cache.Get();
    var b := cache.Get();
    var c := cache.Get();
    answers := [a, b, c];
    calls := cache.upstreamCalls;
  }

  /** A failed first fetch leaves `req.data` undefined on the request that
      made it and on a later one, because the rejection is stored; so the
      stats handler takes its 400 branch on both. (The 401 the middleware
      sends first, which is what the client receives, is not modelled.) */
  method FetchFailureIsSticky(upstream: nat -> FetchResult) returns (first: Stats.StatsResponse, second: Stats.StatsResponse)
    requires upstream(0).Rejected?
    ensures first == second == BadRequest(InvalidDataStructure)
  {
    var cache := new FetchCache(upstream);
    var req1 := new Request();
    AttachDataset(req1, cache);
    first := BlogStatsRoute(req1);
    var req2 := new Request();
    AttachDataset(req2, cache);
    second := BlogStatsRoute(req2);
  }

  /** A second search with the same query gets the first call's records,
      whatever payload it passes, even an undefined one. */
  method RepeatedSearch(first: Payload, later: Payload, query: Query)
    returns (r1: Completion<seq<Blog>>, r2: Completion<seq<Blog>>)
    requires WellShaped(first)
    ensures r1.Returned? && r1 == SearchBlogs(first, query)
    ensures r2 == r1
  {
    var cache := new SearchCache();
    r1 := cache.Get(first, query);
    r2 := cache.Get(later, query);
  }

  /** A request without a query gets whatever a search for the text
      "undefined" stored. */
  method AbsentQueryReadsUndefinedEntry(first: Payload, later: Payload)
    returns (r1: Completion<seq<Blog>>, r2: Completion<seq<Blog>>)
    requires WellShaped(first)
    ensures r1 == SearchBlogs(first, Given("undefined"))
    ensures r2 == r1
  {
    var cache := new SearchCache();
    r1 := cache.Get(first, Given("undefined"));
    SearchKeysCollide(Absent, Given("undefined"));
    r2 := cache.Get(later, Absent);
  }

  /** A search that throws stores nothing: the next call with the same
      query searches again. */
  method ThrowIsNotStored(bad: Payload, good: Payload, query: Query)
    returns (r1: Completion<seq<Blog>>, r2: Completion<seq<Blog>>)
    requires !WellShaped(bad)
    ensures r1 == Threw
    ensures r2 == SearchBlogs(good, query)
  {
    var cache := new SearchCache();
    r1 := cache.Get(bad, query);
    r2 := cache.Get(good, query);
  }
}
